/** Orb commands expanded into plain steps: parameters substituted, references inlined, up to a depth limit. */
module Orbs {
  import opened Wrappers

  type Params = map<string, string>
  type StepParams = map<string, seq<Node>>

  datatype Step = Step(name: string, command: string, env: map<string, string>)

  /** A step as decoded. `shown` is what a step that refers to no known command is reported as. */
  datatype Node =
    | Leaf(show: Params -> Step)      // a script, a local no-op, or nothing that can be expanded
    | Word(text: string, shown: Step)
    | When(unless: bool, condition: Condition, steps: seq<Node>)
    | Steps(ref: Option<string>, isList: bool, list: seq<Node>, shown: Step)
    | Call(name: string, args: map<string, Value>, shown: Step)

  /** A value of the configuration: its text as a scalar, whether it is a list of steps, and which. */
  datatype Value = Value(text: string, isList: bool, list: seq<Node>)

  /** A condition by its first key among equal, and, or, not. */
  datatype Condition =
    | Scalar(text: string)
    | Equal(items: seq<string>)
    | AllOf(all: seq<Condition>)
    | AnyOf(any: seq<Condition>)
    | Not(negated: Condition)
    | NotAList(key: string)           // equal, and, or with something else than a list
    | Unknown(keys: string)
    | Neither

  datatype Param = Param(kind: string, default: Option<Value>)

  datatype Command = Command(params: map<string, Param>, steps: seq<Node>)

  datatype OrbSet = OrbSet(orbs: map<string, map<string, Command>>, broken: map<string, string>)

  const MAX_DEPTH: int := 12

  const TOO_DEEP: Step := Step("orb expansion too deep (skipped)",
    "echo \"skipped: orb command nesting exceeded the depth limit \U{2014} likely a reference cycle\"", map[])

  // ----- parameter tokens: << parameters.name >>

  predicate IsBlank(c: char) { c == ' ' || c == '\t' || c == '\n' || c == '\U{000C}' || c == '\r' }

  predicate IsNameChar(c: char) {
    'a' <= c <= 'z' || 'A' <= c <= 'Z' || '0' <= c <= '9' || c == '_' || c == '-'
  }

  function SkipBlanks(s: string, i: nat): (j: nat)
    requires i <= |s|
    ensures i <= j <= |s|
    decreases |s| - i
  {
    if i < |s| && IsBlank(s[i]) then SkipBlanks(s, i + 1) else i
  }

  function SkipName(s: string, i: nat): (j: nat)
    requires i <= |s|
    ensures i <= j <= |s|
    decreases |s| - i
  {
    if i < |s| && IsNameChar(s[i]) then SkipName(s, i + 1) else i
  }

  /** The name in a token that starts at `i`, and where the token ends. */
  function TokenAt(s: string, i: nat): (t: Option<(string, nat)>)
    requires i <= |s|
    ensures t.Some? ==> i < t.value.1 <= |s|
  {
    if !("<<" <= s[i..]) then None
    else
      var j := SkipBlanks(s, i + 2);
      if !("parameters." <= s[j..]) then None
      else
        var k := SkipName(s, j + 11);
        var l := SkipBlanks(s, k);
        if k == j + 11 || !(">>" <= s[l..]) then None else Some((s[j + 11..k], l + 2))
  }

  function FirstToken(s: string, i: nat): Option<string>
    requires i <= |s|
    decreases |s| - i
  {
    if i == |s| then None
    else match TokenAt(s, i)
      case Some((name, _)) => Some(name)
      case None => FirstToken(s, i + 1)
  }

  /** Every token that names a parameter replaced by its value; other tokens stay. */
  function SubstFrom(s: string, i: nat, params: Params): string
    requires i <= |s|
    decreases |s| - i
  {
    if i == |s| then ""
    else match TokenAt(s, i)
      case Some((name, end)) => (if name in params then params[name] else s[i..end]) + SubstFrom(s, end, params)
      case None => [s[i]] + SubstFrom(s, i + 1, params)
  }

  function Subst(s: string, params: Params): string { SubstFrom(s, 0, params) }

  lemma {:induction false} NothingToSubstitute(s: string, i: nat, params: Params)
    requires i <= |s| && forall k, t :: i <= k < |s| && TokenAt(s, k) == Some(t) ==> t.0 !in params
    ensures SubstFrom(s, i, params) == s[i..]
    decreases |s| - i
  {
    hide TokenAt;
    if i < |s| {
      match TokenAt(s, i)
      case Some((name, end)) =>
        NothingToSubstitute(s, end, params);
        assert s[i..] == s[i..end] + s[end..];
      case None =>
        NothingToSubstitute(s, i + 1, params);
        assert s[i..] == [s[i]] + s[i + 1..];
    }
  }

  // ----- conditions

  datatype Verdict = Holds(yes: bool) | Unsupported(why: string)

  predicate IsSpace(c: char) {
    || IsBlank(c) || c == '\U{000B}' || c == '\U{0085}' || c == '\U{00A0}' || c == '\U{1680}'
    || '\U{2000}' <= c <= '\U{200A}' || c == '\U{2028}' || c == '\U{2029}' || c == '\U{202F}' || c == '\U{205F}'
    || c == '\U{3000}'
  }

  function TrimSpace(s: string): (t: string)
    decreases |s|
  {
    if s == "" then s
    else if IsSpace(s[0]) then TrimSpace(s[1..])
    else if IsSpace(s[|s| - 1]) then TrimSpace(s[..|s| - 1])
    else s
  }

  predicate Truthy(s: string) { TrimSpace(s) !in ["", "false", "null", "0"] }

  ghost function Evaluated(c: Condition, params: Params): Verdict {
    match c
    case Scalar(text) => Holds(Truthy(Subst(text, params)))
    case Equal(items) =>
      if items == [] then Unsupported("equal wants a list")
      else Holds(forall i :: 1 <= i < |items| ==> Subst(items[i], params) == Subst(items[0], params))
    case AllOf(items) => AllEvaluated(items, params)
    case AnyOf(items) => AnyEvaluated(items, params)
    case Not(d) => var v := Evaluated(d, params); if v.Holds? then Holds(!v.yes) else v
    case NotAList(key) => Unsupported(key + " wants a list")
    case Unknown(keys) => Unsupported("unsupported condition " + keys)
    case Neither => Unsupported("condition is neither scalar nor map")
  }

  ghost function AllEvaluated(cs: seq<Condition>, params: Params): Verdict {
    if cs == [] then Holds(true)
    else if Evaluated(cs[0], params) == Holds(true) then AllEvaluated(cs[1..], params)
    else Evaluated(cs[0], params)
  }

  ghost function AnyEvaluated(cs: seq<Condition>, params: Params): Verdict {
    if cs == [] then Holds(false)
    else if Evaluated(cs[0], params) == Holds(false) then AnyEvaluated(cs[1..], params)
    else Evaluated(cs[0], params)
  }

  method EvaluateCondition(c: Condition, params: Params) returns (v: Verdict)
    ensures v == Evaluated(c, params)
    decreases c
  {
    match c
    case Scalar(text) => return Holds(Truthy(Subst(text, params)));
    case Equal(items) =>
      if items == [] { return Unsupported("equal wants a list"); }
      var first := Subst(items[0], params);
      for i := 1 to |items|
        invariant forall k :: 1 <= k < i ==> Subst(items[k], params) == first
      {
        if Subst(items[i], params) != first { return Holds(false); }
      }
      return Holds(true);
    case AllOf(items) =>
      for i := 0 to |items|
        invariant AllEvaluated(items, params) == AllEvaluated(items[i..], params)
      {
        v := EvaluateCondition(items[i], params);
        if v != Holds(true) { return; }
        assert items[i..][1..] == items[i + 1..];
      }
      return Holds(true);
    case AnyOf(items) =>
      for i := 0 to |items|
        invariant AnyEvaluated(items, params) == AnyEvaluated(items[i..], params)
      {
        v := EvaluateCondition(items[i], params);
        if v != Holds(false) { return; }
        assert items[i..][1..] == items[i + 1..];
      }
      return Holds(false);
    case Not(d) =>
      v := EvaluateCondition(d, params);
      if v.Holds? { v := Holds(!v.yes); }
    case NotAList(key) => return Unsupported(key + " wants a list");
    case Unknown(keys) => return Unsupported("unsupported condition " + keys);
    case Neither => return Unsupported("condition is neither scalar nor map");
  }

  /** Nothing in `c` is beyond the supported logic. */
  ghost predicate Supported(c: Condition) {
    match c
    case Scalar(_) => true
    case Equal(items) => items != []
    case AllOf(items) => forall d <- items :: Supported(d)
    case AnyOf(items) => forall d <- items :: Supported(d)
    case Not(d) => Supported(d)
    case _ => false
  }

  /** The condition as a formula. */
  ghost predicate True(c: Condition, params: Params)
    requires Supported(c)
  {
    match c
    case Scalar(text) => Truthy(Subst(text, params))
    case Equal(items) => forall x, y :: x in items && y in items ==> Subst(x, params) == Subst(y, params)
    case AllOf(items) => forall d <- items :: True(d, params)
    case AnyOf(items) => exists d <- items :: True(d, params)
    case Not(d) => !True(d, params)
  }

  lemma {:induction false} ConditionIsLogic(c: Condition, params: Params)
    requires Supported(c)
    ensures Evaluated(c, params) == Holds(True(c, params))
    decreases c
  {
    match c
    case Scalar(_) =>
    case Equal(items) => AllSame(items, params);
    case AllOf(items) => AllAreLogic(c, items, params);
    case AnyOf(items) => AnyIsLogic(c, items, params);
    case Not(d) => ConditionIsLogic(d, params);
  }

  lemma AllSame(items: seq<string>, params: Params)
    requires items != []
    ensures (forall i :: 1 <= i < |items| ==> Subst(items[i], params) == Subst(items[0], params))
            <==> forall x, y :: x in items && y in items ==> Subst(x, params) == Subst(y, params)
  {
    hide Subst;
    if forall i :: 1 <= i < |items| ==> Subst(items[i], params) == Subst(items[0], params) {
      forall x | x in items ensures Subst(x, params) == Subst(items[0], params) {
        var i :| 0 <= i < |items| && items[i] == x;
      }
    } else {
      assert items[0] in items;
    }
  }

  lemma {:induction false} AllAreLogic(c: Condition, cs: seq<Condition>, params: Params)
    requires forall d <- cs :: d < c && Supported(d)
    ensures AllEvaluated(cs, params) == Holds(forall d <- cs :: True(d, params))
    decreases c, |cs|
  {
    hide True;
    if cs != [] {
      assert cs[0] in cs && forall d :: d in cs <==> d == cs[0] || d in cs[1..];
      ConditionIsLogic(cs[0], params);
      AllAreLogic(c, cs[1..], params);
    }
  }

  lemma {:induction false} AnyIsLogic(c: Condition, cs: seq<Condition>, params: Params)
    requires forall d <- cs :: d < c && Supported(d)
    ensures AnyEvaluated(cs, params) == Holds(exists d <- cs :: True(d, params))
    decreases c, |cs|
  {
    hide True;
    if cs != [] {
      assert cs[0] in cs && forall d :: d in cs <==> d == cs[0] || d in cs[1..];
      ConditionIsLogic(cs[0], params);
      AnyIsLogic(c, cs[1..], params);
    }
  }

  // ----- the parameter values of one command

  ghost predicate IsStepList(decl: map<string, Param>, name: string) { name in decl && decl[name].kind == "steps" }

  /** What a declared default or a given argument provides as steps. */
  ghost function GivenSteps(decl: map<string, Param>, args: map<string, Value>, name: string): Option<seq<Node>>
    requires name in decl
  {
    if name in args && args[name].isList then Some(args[name].list)
    else if decl[name].default.Some? && decl[name].default.value.isList then Some(decl[name].default.value.list)
    else None
  }

  /** Text values: the argument with the caller's parameters substituted, else the default, else nothing. */
  ghost predicate AreStrings(decl: map<string, Param>, args: map<string, Value>, outer: Params, strs: Params) {
    && (forall name :: name in strs <==> (name in decl || name in args) && !IsStepList(decl, name))
    && forall name <- strs ::
         strs[name] == if name in args then Subst(args[name].text, outer)
                       else if decl[name].default.Some? then decl[name].default.value.text
                       else ""
  }

  ghost predicate AreSteps(decl: map<string, Param>, args: map<string, Value>, steps: StepParams) {
    && (forall name :: name in steps <==> IsStepList(decl, name) && GivenSteps(decl, args, name).Some?)
    && forall name <- steps :: Some(steps[name]) == GivenSteps(decl, args, name)
  }

  ghost function Strings(decl: map<string, Param>, args: map<string, Value>, outer: Params): (strs: Params)
    ensures AreStrings(decl, args, outer, strs)
  {
    map name | name in decl.Keys + args.Keys && !IsStepList(decl, name) ::
      if name in args then Subst(args[name].text, outer)
      else if decl[name].default.Some? then decl[name].default.value.text
      else ""
  }

  ghost function StepLists(decl: map<string, Param>, args: map<string, Value>): (steps: StepParams)
    ensures AreSteps(decl, args, steps)
  {
    map name | name in decl && IsStepList(decl, name) && GivenSteps(decl, args, name).Some? ::
      GivenSteps(decl, args, name).value
  }

  /** What becomes of each name: a declared steps parameter is the list given, else the default list, else nothing; any
      other declared or given name is the argument in the caller's terms, else the default, else the empty text. */
  lemma ParamsMean(decl: map<string, Param>, args: map<string, Value>, outer: Params, name: string)
    ensures var strs, steps := Strings(decl, args, outer), StepLists(decl, args);
            if name in decl && decl[name].kind == "steps" then
              && name !in strs
              && (if name in args && args[name].isList then name in steps && steps[name] == args[name].list
                  else if decl[name].default.Some? && decl[name].default.value.isList then
                    name in steps && steps[name] == decl[name].default.value.list
                  else name !in steps)
            else
              && name !in steps
              && (if name in args then name in strs && strs[name] == Subst(args[name].text, outer)
                  else if name !in decl then name !in strs
                  else name in strs
                       && strs[name] == if decl[name].default.Some? then decl[name].default.value.text else "")
  {
    hide Subst;
  }

  /** Resolves declarations and arguments, visiting both in no particular order. */
  method ParamValues(decl: map<string, Param>, args: map<string, Value>, outer: Params)
    returns (strs: Params, steps: StepParams)
    ensures strs == Strings(decl, args, outer) && steps == StepLists(decl, args)
  {
    hide Subst, Without, AreStrings, AreSteps, Strings, StepLists;
    strs, steps := map[], map[];
    var todo := decl.Keys;
    WithoutAll(decl);
    NothingResolved(outer);
    while todo != {}
      invariant todo <= decl.Keys
      invariant AreStrings(Without(decl, todo), map[], outer, strs) && AreSteps(Without(decl, todo), map[], steps)
      decreases |todo|
    {
      var name :| name in todo;
      WithoutOneLess(decl, todo, name);
      DeclaredString(Without(decl, todo), name, decl[name], outer, strs);
      DeclaredSteps(Without(decl, todo), name, decl[name], steps);
      todo := todo - {name};
      var p := decl[name];
      if p.kind == "steps" {
        if p.default.Some? && p.default.value.isList { steps := steps[name := p.default.value.list]; }
      } else {
        strs := strs[name := if p.default.Some? then p.default.value.text else ""];
      }
    }
    WithoutNone(decl);
    WithoutAll(args);
    todo := args.Keys;
    while todo != {}
      invariant todo <= args.Keys
      invariant AreStrings(decl, Without(args, todo), outer, strs) && AreSteps(decl, Without(args, todo), steps)
      decreases |todo|
    {
      var name :| name in todo;
      WithoutOneLess(args, todo, name);
      ArguedString(decl, Without(args, todo), name, args[name], outer, strs);
      ArguedSteps(decl, Without(args, todo), name, args[name], steps);
      todo := todo - {name};
      if name in decl && decl[name].kind == "steps" {
        if args[name].isList { steps := steps[name := args[name].list]; }
      } else {
        strs := strs[name := Subst(args[name].text, outer)];
      }
    }
    WithoutNone(args);
    OnlyThese(decl, args, outer, strs, steps);
  }

  ghost function Without<V>(m: map<string, V>, names: set<string>): map<string, V> {
    map name | name in m && name !in names :: m[name]
  }

  lemma WithoutAll<V>(m: map<string, V>)
    ensures Without(m, m.Keys) == map[]
  {
  }

  lemma WithoutNone<V>(m: map<string, V>)
    ensures Without(m, {}) == m
  {
  }

  lemma WithoutOneLess<V>(m: map<string, V>, names: set<string>, name: string)
    requires name in names && name in m
    ensures name !in Without(m, names) && Without(m, names - {name}) == Without(m, names)[name := m[name]]
  {
  }

  lemma NothingResolved(outer: Params)
    ensures AreStrings(map[], map[], outer, map[]) && AreSteps(map[], map[], map[])
  {
  }

  lemma DeclaredString(decl: map<string, Param>, name: string, p: Param, outer: Params, strs: Params)
    requires name !in decl && AreStrings(decl, map[], outer, strs)
    ensures var v := p.default;
            AreStrings(decl[name := p], map[], outer,
              if p.kind == "steps" then strs else strs[name := if v.Some? then v.value.text else ""])
  {
    hide Subst;
  }

  lemma DeclaredSteps(decl: map<string, Param>, name: string, p: Param, steps: StepParams)
    requires name !in decl && AreSteps(decl, map[], steps)
    ensures var v := p.default;
            AreSteps(decl[name := p], map[],
              if p.kind == "steps" && v.Some? && v.value.isList then steps[name := v.value.list] else steps)
  {
  }

  lemma ArguedString(decl: map<string, Param>, args: map<string, Value>, name: string, v: Value, outer: Params,
                     strs: Params)
    requires name !in args && AreStrings(decl, args, outer, strs)
    ensures AreStrings(decl, args[name := v], outer,
              if IsStepList(decl, name) then strs else strs[name := Subst(v.text, outer)])
  {
    hide Subst;
  }

  lemma ArguedSteps(decl: map<string, Param>, args: map<string, Value>, name: string, v: Value, steps: StepParams)
    requires name !in args && AreSteps(decl, args, steps)
    ensures AreSteps(decl, args[name := v], if IsStepList(decl, name) && v.isList then steps[name := v.list] else steps)
  {
  }

  lemma OnlyThese(decl: map<string, Param>, args: map<string, Value>, outer: Params, strs: Params, steps: StepParams)
    requires AreStrings(decl, args, outer, strs) && AreSteps(decl, args, steps)
    ensures strs == Strings(decl, args, outer) && steps == StepLists(decl, args)
  {
    hide Subst;
    var strs', steps' := Strings(decl, args, outer), StepLists(decl, args);
    assert strs.Keys == strs'.Keys;
    assert steps.Keys == steps'.Keys;
    forall name | name in steps ensures steps[name] == steps'[name] {
      assert Some(steps[name]) == Some(steps'[name]);
    }
  }

  // ----- expansion, one step at a time

  /** Where names are looked up: the orb, and the values of the parameters. */
  datatype Scope = Scope(orb: string, params: Params, stepParams: StepParams)

  /** What one step comes to: steps of its own, or a list to expand elsewhere, its names prefixed. */
  datatype Reduced = Now(steps: seq<Step>) | Nested(scope: Scope, nodes: seq<Node>, prefix: string)

  function Cut(s: string, i: nat): (k: nat)
    requires i <= |s|
    ensures i <= k <= |s|
    decreases |s| - i
  {
    if i == |s| || s[i] == '/' then i else Cut(s, i + 1)
  }

  /** The orb and the command that a reference names: behind a slash in another orb, else in this one. */
  function Target(orb: string, name: string): (string, string) {
    var k := Cut(name, 0);
    if k == |name| then (orb, name) else (name[..k], name[k + 1..])
  }

  function SingleQuoted(s: string): (r: string)
    ensures |r| == |s| && forall i :: 0 <= i < |s| ==> r[i] == if s[i] == '"' then '\'' else s[i]
  {
    if s == "" then "" else [if s[0] == '"' then '\'' else s[0]] + SingleQuoted(s[1..])
  }

  function Unavailable(name: string, why: string): Step {
    Step(name + " (orb unavailable, skipped)", "echo \"skipped " + name + " \U{2014} " + SingleQuoted(why) + "\"", map[])
  }

  function Skipped(unless: bool, why: string): Step {
    Step((if unless then "unless" else "when") + " (skipped)",
         "echo \"skipped conditional steps \U{2014} " + why + "\"", map[])
  }

  ghost function Reference(imports: OrbSet, scope: Scope, name: string, args: map<string, Value>): Option<Reduced> {
    var (orb, cmd) := Target(scope.orb, name);
    if orb in imports.broken then Some(Now([Unavailable(name, imports.broken[orb])]))
    else if orb !in imports.orbs || cmd !in imports.orbs[orb] then None
    else
      var c := imports.orbs[orb][cmd];
      Some(Nested(Scope(orb, Strings(c.params, args, scope.params), StepLists(c.params, args)), c.steps, name + ": "))
  }

  /** The steps a parameter stands for; they see the same values, but no steps parameters of their own. */
  ghost function Spliced(scope: Scope, name: string): Reduced {
    Nested(scope.(stepParams := map[]), if name in scope.stepParams then scope.stepParams[name] else [], "")
  }

  ghost function Reduce(imports: OrbSet, scope: Scope, n: Node): Reduced {
    match n
    case Leaf(show) => Now([show(scope.params)])
    case Word(text, shown) =>
      if FirstToken(text, 0).Some? then Spliced(scope, FirstToken(text, 0).value)
      else
        var r := Reference(imports, scope, text, map[]);
        if r.Some? then r.value else Now([shown])
    case When(unless, condition, steps) =>
      var v := Evaluated(condition, scope.params);
      if v.Unsupported? then Now([Skipped(unless, v.why)])
      else if v.yes == unless then Now([])
      else Nested(scope, steps, "")
    case Steps(ref, isList, list, shown) =>
      if ref.Some? && FirstToken(ref.value, 0).Some? then Spliced(scope, FirstToken(ref.value, 0).value)
      else if isList then Nested(scope, list, "")
      else Now([shown])
    case Call(name, args, shown) =>
      var r := Reference(imports, scope, name, args);
      if r.Some? then r.value else Now([shown])
  }

  ghost function Renamed(prefix: string, steps: seq<Step>): (r: seq<Step>)
    ensures |r| == |steps|
    ensures forall i :: 0 <= i < |r| ==> r[i] == steps[i].(name := prefix + steps[i].name)
  {
    seq(|steps|, i requires 0 <= i < |steps| => steps[i].(name := prefix + steps[i].name))
  }

  // ----- expansion in full

  function Room(depth: int): nat { if depth > MAX_DEPTH then 0 else MAX_DEPTH + 1 - depth }

  ghost function Expanded(imports: OrbSet, scope: Scope, nodes: seq<Node>, depth: int): seq<Step>
    decreases Room(depth), 1, |nodes|
  {
    if depth > MAX_DEPTH then [TOO_DEEP]
    else if nodes == [] then []
    else Unfolded(imports, Reduce(imports, scope, nodes[0]), depth) + Expanded(imports, scope, nodes[1..], depth)
  }

  ghost function Unfolded(imports: OrbSet, r: Reduced, depth: int): seq<Step>
    requires depth <= MAX_DEPTH
    decreases Room(depth), 0, 0
  {
    if r.Now? then r.steps else Renamed(r.prefix, Expanded(imports, r.scope, r.nodes, depth + 1))
  }

  lemma NoPrefix(steps: seq<Step>)
    ensures Renamed("", steps) == steps
  {
    forall i | 0 <= i < |steps| ensures Renamed("", steps)[i] == steps[i] {
      assert "" + steps[i].name == steps[i].name;
    }
  }

  method ExpandSteps(imports: OrbSet, scope: Scope, nodes: seq<Node>, depth: int) returns (out: seq<Step>)
    ensures out == Expanded(imports, scope, nodes, depth)
    decreases Room(depth), 1, 0
  {
    if depth > MAX_DEPTH { return [TOO_DEEP]; }
    out := [];
    for i := 0 to |nodes|
      invariant out + Expanded(imports, scope, nodes[i..], depth) == Expanded(imports, scope, nodes, depth)
    {
      var steps := ExpandStep(imports, scope, nodes[i], depth);
      assert nodes[i..][1..] == nodes[i + 1..];
      out := out + steps;
    }
  }

  method ExpandStep(imports: OrbSet, scope: Scope, n: Node, depth: int) returns (out: seq<Step>)
    requires depth <= MAX_DEPTH
    ensures out == Unfolded(imports, Reduce(imports, scope, n), depth)
    decreases Room(depth), 0, 1
  {
    match n
    case Leaf(show) => return [show(scope.params)];
    case Word(text, shown) =>
      var token := FirstToken(text, 0);
      if token.Some? {
        out := Splice(imports, scope, token.value, depth);
        return;
      }
      var found := ResolveCommandRef(imports, scope, text, map[], depth);
      return if found.Some? then found.value else [shown];
    case When(unless, condition, steps) =>
      var v := EvaluateCondition(condition, scope.params);
      if v.Unsupported? { return [Skipped(unless, v.why)]; }
      if v.yes == unless { return []; }
      out := ExpandSteps(imports, scope, steps, depth + 1);
      NoPrefix(out);
    case Steps(ref, isList, list, shown) =>
      if ref.Some? {
        var token := FirstToken(ref.value, 0);
        if token.Some? {
          out := Splice(imports, scope, token.value, depth);
          return;
        }
      }
      if isList {
        out := ExpandSteps(imports, scope, list, depth + 1);
        NoPrefix(out);
        return;
      }
      return [shown];
    case Call(name, args, shown) =>
      var found := ResolveCommandRef(imports, scope, name, args, depth);
      return if found.Some? then found.value else [shown];
  }

  method Splice(imports: OrbSet, scope: Scope, name: string, depth: int) returns (out: seq<Step>)
    requires depth <= MAX_DEPTH
    ensures out == Unfolded(imports, Spliced(scope, name), depth)
    decreases Room(depth), 0, 0
  {
    var nodes := if name in scope.stepParams then scope.stepParams[name] else [];
    out := ExpandSteps(imports, scope.(stepParams := map[]), nodes, depth + 1);
    NoPrefix(out);
  }

  method ResolveCommandRef(imports: OrbSet, scope: Scope, name: string, args: map<string, Value>, depth: int)
    returns (found: Option<seq<Step>>)
    requires depth <= MAX_DEPTH
    ensures var r := Reference(imports, scope, name, args);
            && (found.None? <==> r.None?)
            && (r.Some? ==> found.value == Unfolded(imports, r.value, depth))
    decreases Room(depth), 0, 0
  {
    var (orb, cmd) := Target(scope.orb, name);
    if orb in imports.broken { return Some([Unavailable(name, imports.broken[orb])]); }
    if orb !in imports.orbs || cmd !in imports.orbs[orb] { return None; }
    var c := imports.orbs[orb][cmd];
    var params, stepParams := ParamValues(c.params, args, scope.params);
    var steps := ExpandSteps(imports, Scope(orb, params, stepParams), c.steps, depth + 1);
    ghost var before := steps;
    for i := 0 to |steps|
      invariant |steps| == |before| && steps[i..] == before[i..]
      invariant forall k :: 0 <= k < i ==> steps[k] == Renamed(name + ": ", before)[k]
    {
      steps := steps[i := steps[i].(name := name + ": " + steps[i].name)];
    }
    return Some(steps);
  }

  // ----- the size of an expansion

  function Power(b: nat, k: nat): nat { if k == 0 then 1 else b * Power(b, k - 1) }

  /** No list of steps in the node, at any depth, is longer than `b`. */
  ghost predicate Small(n: Node, b: nat) {
    match n
    case When(_, _, steps) => |steps| <= b && forall m <- steps :: Small(m, b)
    case Steps(_, _, list, _) => |list| <= b && forall m <- list :: Small(m, b)
    case Call(_, args, _) =>
      forall k <- args :: |args[k].list| <= b && forall m <- args[k].list :: Small(m, b)
    case _ => true
  }

  ghost predicate SmallList(nodes: seq<Node>, b: nat) { |nodes| <= b && forall m <- nodes :: Small(m, b) }

  ghost predicate SmallScope(scope: Scope, b: nat) { forall k <- scope.stepParams :: SmallList(scope.stepParams[k], b) }

  ghost predicate SmallCommand(c: Command, b: nat) {
    && SmallList(c.steps, b)
    && forall k <- c.params :: c.params[k].default.Some? ==> SmallList(c.params[k].default.value.list, b)
  }

  ghost predicate SmallSet(imports: OrbSet, b: nat) {
    forall orb <- imports.orbs :: forall cmd <- imports.orbs[orb] :: SmallCommand(imports.orbs[orb][cmd], b)
  }

  lemma ReducesSmall(imports: OrbSet, scope: Scope, n: Node, b: nat)
    requires SmallSet(imports, b) && SmallScope(scope, b) && Small(n, b) && b >= 1
    ensures var r := Reduce(imports, scope, n);
            if r.Now? then |r.steps| <= 1 else SmallScope(r.scope, b) && SmallList(r.nodes, b)
  {
    hide Evaluated, FirstToken, Subst, Target, Strings;
  }

  /** At most b to the power of the levels that are left: at depth 0, b to the 13th. */
  lemma {:induction false} ExpansionIsBounded(imports: OrbSet, scope: Scope, nodes: seq<Node>, depth: int, b: nat)
    requires b >= 1 && SmallSet(imports, b) && SmallScope(scope, b) && SmallList(nodes, b)
    ensures |Expanded(imports, scope, nodes, depth)| <= Power(b, Room(depth))
    decreases Room(depth), 1
  {
    if depth <= MAX_DEPTH {
      EachIsBounded(imports, scope, nodes, depth, b);
      Times(|nodes|, b, Power(b, Room(depth) - 1));
    }
  }

  lemma Times(n: nat, b: nat, p: nat)
    requires n <= b
    ensures n * p <= b * p
  {
  }

  lemma {:induction false} EachIsBounded(imports: OrbSet, scope: Scope, nodes: seq<Node>, depth: int, b: nat)
    requires b >= 1 && depth <= MAX_DEPTH
    requires SmallSet(imports, b) && SmallScope(scope, b) && forall n <- nodes :: Small(n, b)
    ensures |Expanded(imports, scope, nodes, depth)| <= |nodes| * Power(b, Room(depth) - 1)
    decreases Room(depth), 0, |nodes|
  {
    hide SmallSet, SmallScope, Small, Reduce, Power;
    if nodes != [] {
      var p := Power(b, Room(depth) - 1);
      ReducesSmall(imports, scope, nodes[0], b);
      var r := Reduce(imports, scope, nodes[0]);
      if r.Now? {
        PowerIsPositive(b, Room(depth) - 1);
      } else {
        ExpansionIsBounded(imports, r.scope, r.nodes, depth + 1, b);
      }
      assert |Unfolded(imports, r, depth)| <= p;
      EachIsBounded(imports, scope, nodes[1..], depth, b);
      OneMoreTimes(|nodes[1..]|, p);
    }
  }

  lemma OneMoreTimes(n: nat, p: nat)
    ensures (n + 1) * p == p + n * p
  {
  }

  lemma {:induction false} PowerIsPositive(b: nat, k: nat)
    requires b >= 1
    ensures Power(b, k) >= 1
  {
    if k > 0 {
      PowerIsPositive(b, k - 1);
      Times(1, b, Power(b, k - 1));
    }
  }

  // ----- the depth limit

  /** The expansion from `depth` ends everywhere before the limit cuts it off. */
  ghost predicate Fits(imports: OrbSet, scope: Scope, nodes: seq<Node>, depth: int)
    decreases Room(depth), 1, |nodes|
  {
    && depth <= MAX_DEPTH
    && (nodes != [] ==> ReducedFits(imports, Reduce(imports, scope, nodes[0]), depth))
    && (nodes != [] ==> Fits(imports, scope, nodes[1..], depth))
  }

  ghost predicate ReducedFits(imports: OrbSet, r: Reduced, depth: int)
    requires depth <= MAX_DEPTH
    decreases Room(depth), 0, 0
  {
    r.Nested? ==> Fits(imports, r.scope, r.nodes, depth + 1)
  }

  /** An expansion that fits comes out the same from any smaller depth: it is the full inlining. */
  lemma {:induction false} LimitIsInvisible(imports: OrbSet, scope: Scope, nodes: seq<Node>, depth: int, less: int)
    requires Fits(imports, scope, nodes, depth) && less <= depth
    ensures Fits(imports, scope, nodes, less)
    ensures Expanded(imports, scope, nodes, less) == Expanded(imports, scope, nodes, depth)
    decreases Room(depth), |nodes|
  {
    hide Reduce;
    if nodes != [] {
      var r := Reduce(imports, scope, nodes[0]);
      if r.Nested? { LimitIsInvisible(imports, r.scope, r.nodes, depth + 1, less + 1); }
      LimitIsInvisible(imports, scope, nodes[1..], depth, less);
      assert Unfolded(imports, r, less) == Unfolded(imports, r, depth);
    }
  }

  ghost predicate Reports(steps: seq<Step>) { exists i :: 0 <= i < |steps| && steps[i].command == TOO_DEEP.command }

  /** An expansion that does not fit says so in one of its steps. */
  lemma {:induction false} OverrunIsReported(imports: OrbSet, scope: Scope, nodes: seq<Node>, depth: int)
    requires !Fits(imports, scope, nodes, depth)
    ensures Reports(Expanded(imports, scope, nodes, depth))
    decreases Room(depth), |nodes|
  {
    hide Reduce, Reports;
    if depth > MAX_DEPTH {
      ReportsItself();
    } else {
      var r := Reduce(imports, scope, nodes[0]);
      var first, rest := Unfolded(imports, r, depth), Expanded(imports, scope, nodes[1..], depth);
      if !ReducedFits(imports, r, depth) {
        OverrunIsReported(imports, r.scope, r.nodes, depth + 1);
        RenamingKeepsReport(r.prefix, Expanded(imports, r.scope, r.nodes, depth + 1));
      } else {
        OverrunIsReported(imports, scope, nodes[1..], depth);
      }
      JoiningKeepsReport(first, rest);
    }
  }

  lemma ReportsItself()
    ensures Reports([TOO_DEEP])
  {
    assert [TOO_DEEP][0].command == TOO_DEEP.command;
  }

  lemma RenamingKeepsReport(prefix: string, steps: seq<Step>)
    requires Reports(steps)
    ensures Reports(Renamed(prefix, steps))
  {
    var i :| 0 <= i < |steps| && steps[i].command == TOO_DEEP.command;
    assert Renamed(prefix, steps)[i].command == TOO_DEEP.command;
  }

  lemma JoiningKeepsReport(a: seq<Step>, b: seq<Step>)
    requires Reports(a) || Reports(b)
    ensures Reports(a + b)
  {
    if Reports(a) {
      var i :| 0 <= i < |a| && a[i].command == TOO_DEEP.command;
      assert (a + b)[i].command == TOO_DEEP.command;
    } else {
      var i :| 0 <= i < |b| && b[i].command == TOO_DEEP.command;
      assert (a + b)[|a| + i].command == TOO_DEEP.command;
    }
  }

  /** Nothing is ever cut off silently: without a report among the steps, they are the full inlining. */
  lemma NoSilentCut(imports: OrbSet, scope: Scope, nodes: seq<Node>, depth: int, less: int)
    requires !Reports(Expanded(imports, scope, nodes, depth)) && less <= depth
    ensures Expanded(imports, scope, nodes, less) == Expanded(imports, scope, nodes, depth)
  {
    hide Expanded, Fits, Reports;
    if !Fits(imports, scope, nodes, depth) { OverrunIsReported(imports, scope, nodes, depth); }
    LimitIsInvisible(imports, scope, nodes, depth, less);
  }

  /** Inside a spliced list a further steps parameter comes to nothing, or to a report at the limit. */
  lemma SplicesDoNotNest(imports: OrbSet, scope: Scope, text: string, shown: Step, depth: int)
    requires scope.stepParams == map[] && FirstToken(text, 0).Some?
    ensures Expanded(imports, scope, [Word(text, shown)], depth)
         == if depth < MAX_DEPTH then [] else [TOO_DEEP]
  {
    hide FirstToken;
    var n := Word(text, shown);
    assert [n][1..] == [];
    if depth <= MAX_DEPTH {
      var r := Reduce(imports, scope, n);
      assert r.Nested? && r.nodes == [] && r.prefix == "";
      NoPrefix(Expanded(imports, r.scope, [], depth + 1));
    }
  }

  /** A command that does nothing but call itself never fits, and comes to a single report. */
  lemma {:induction false} SelfReference(imports: OrbSet, scope: Scope, text: string, shown: Step, depth: int)
    requires FirstToken(text, 0).None? && Cut(text, 0) == |text| && scope.orb !in imports.broken
    requires scope.orb in imports.orbs && text in imports.orbs[scope.orb]
    requires imports.orbs[scope.orb][text].steps == [Word(text, shown)]
    ensures !Fits(imports, scope, [Word(text, shown)], depth)
    ensures |Expanded(imports, scope, [Word(text, shown)], depth)| == 1
    decreases Room(depth)
  {
    hide FirstToken, Cut, Strings, StepLists;
    if depth <= MAX_DEPTH {
      var n := Word(text, shown);
      var r := Reduce(imports, scope, n);
      assert r.Nested? && r.nodes == [n] && r.scope.orb == scope.orb;
      SelfReference(imports, r.scope, text, shown, depth + 1);
      assert [n][1..] == [] && |Unfolded(imports, r, depth)| == 1;
    }
  }
}
