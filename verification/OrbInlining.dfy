/** Expansion against rules: a tree says, step by step, what a list of steps is inlined to, with one rule for each
    kind of step, and expansion puts out exactly what such a tree yields. */
module OrbInlining {
  import opened Wrappers
  import opened Orbs
  import opened OrbTokens

  // ----- conditions, by rules

  /** `t` is `s` without the white space around it. */
  ghost predicate Trimmed(s: string, t: string) {
    && (exists a, b :: s == a + t + b && (forall c <- a :: IsSpace(c)) && (forall c <- b :: IsSpace(c)))
    && (t != "" ==> !IsSpace(t[0]) && !IsSpace(t[|t| - 1]))
  }

  ghost predicate Counts(s: string, yes: bool) {
    exists t :: Trimmed(s, t) && yes == (t != "" && t != "false" && t != "null" && t != "0")
  }

  /** `v` is the verdict on the condition: the parts of "and" and "or" are looked at in order, up to one that decides. */
  ghost predicate Decides(c: Condition, params: Params, v: Verdict)
    decreases c
  {
    match c
    case Scalar(text) => v.Holds? && Counts(Subst(text, params), v.yes)
    case Equal(items) =>
      if items == [] then v == Unsupported("equal wants a list")
      else v == Holds(forall x, y :: x in items && y in items ==> Subst(x, params) == Subst(y, params))
    case AllOf(items) => InTurn(items, params, Holds(true), v)
    case AnyOf(items) => InTurn(items, params, Holds(false), v)
    case Not(d) => if v.Holds? then Decides(d, params, Holds(!v.yes)) else Decides(d, params, v)
    case NotAList(key) => v == Unsupported(key + " wants a list")
    case Unknown(keys) => v == Unsupported("unsupported condition " + keys)
    case Neither => v == Unsupported("condition is neither scalar nor map")
  }

  /** All the items go on, and so does the whole; or the first that does not decides. */
  ghost predicate InTurn(items: seq<Condition>, params: Params, on: Verdict, v: Verdict)
    decreases items
  {
    if v == on then forall i :: 0 <= i < |items| ==> Decides(items[i], params, on)
    else exists k :: 0 <= k < |items| && Decides(items[k], params, v)
                     && forall i :: 0 <= i < k ==> Decides(items[i], params, on)
  }

  lemma {:induction false} TrimSpaceTrims(s: string)
    ensures Trimmed(s, TrimSpace(s))
    decreases |s|
  {
    hide IsSpace, Trimmed;
    if s == "" || (!IsSpace(s[0]) && !IsSpace(s[|s| - 1])) {
      AlreadyTrimmed(s);
    } else if IsSpace(s[0]) {
      TrimSpaceTrims(s[1..]);
      assert s == [s[0]] + s[1..] + "";
      MoreSpace([s[0]], s[1..], "", TrimSpace(s));
    } else {
      var last := |s| - 1;
      TrimSpaceTrims(s[..last]);
      assert s == "" + s[..last] + [s[last]];
      MoreSpace("", s[..last], [s[last]], TrimSpace(s));
    }
  }

  lemma AlreadyTrimmed(s: string)
    requires s == "" || (!IsSpace(s[0]) && !IsSpace(s[|s| - 1]))
    ensures Trimmed(s, s)
  {
    hide IsSpace;
    assert s == "" + s + "";
  }

  lemma MoreSpace(front: string, s: string, back: string, t: string)
    requires Trimmed(s, t) && (forall c <- front :: IsSpace(c)) && forall c <- back :: IsSpace(c)
    ensures Trimmed(front + s + back, t)
  {
    hide IsSpace;
    var a, b :| s == a + t + b && (forall c <- a :: IsSpace(c)) && (forall c <- b :: IsSpace(c));
    assert front + s + back == (front + a) + t + (b + back);
  }

  /** Text that starts and ends with something else cannot reach into the white space of another split. */
  lemma SpaceStops(s: string, a: string, t: string, b: string, d: string, u: string, e: string)
    requires s == a + t + b && t != "" && !IsSpace(t[0]) && !IsSpace(t[|t| - 1])
    requires s == d + u + e && (forall c <- d :: IsSpace(c)) && (forall c <- e :: IsSpace(c))
    ensures |d| <= |a| && |e| <= |b| && u != ""
  {
    hide IsSpace;
    var i, k := |a|, |a| + |t| - 1;
    assert s[i] == t[0] && s[k] == t[|t| - 1];
    assert s == d + (u + e);
  }

  lemma OnlyTrimmed(s: string, t: string, u: string)
    requires Trimmed(s, t) && Trimmed(s, u)
    ensures t == u
  {
    hide IsSpace;
    var a, b :| s == a + t + b && (forall c <- a :: IsSpace(c)) && (forall c <- b :: IsSpace(c));
    var d, e :| s == d + u + e && (forall c <- d :: IsSpace(c)) && (forall c <- e :: IsSpace(c));
    if t != "" { SpaceStops(s, a, t, b, d, u, e); }
    if u != "" { SpaceStops(s, d, u, e, a, t, b); }
    if t != "" { assert t == s[|a|..|s| - |b|] && u == s[|d|..|s| - |e|]; }
  }

  lemma CountsIsTruthy(s: string, yes: bool)
    ensures Counts(s, yes) <==> yes == Truthy(s)
  {
    hide Trimmed;
    TrimSpaceTrims(s);
    forall t | Trimmed(s, t) ensures t == TrimSpace(s) { OnlyTrimmed(s, t, TrimSpace(s)); }
    var t := TrimSpace(s);
    assert Truthy(s) <==> t != "" && t != "false" && t != "null" && t != "0";
  }

  lemma {:induction false} DecidesIsEvaluated(c: Condition, params: Params, v: Verdict)
    ensures Decides(c, params, v) <==> v == Evaluated(c, params)
    decreases c
  {
    hide Subst, Truthy, Counts;
    match c
    case Scalar(text) => if v.Holds? { CountsIsTruthy(Subst(text, params), v.yes); }
    case Equal(items) => if items != [] { AllSame(items, params); }
    case AllOf(items) => AllInTurn(c, items, params, v);
    case AnyOf(items) => AnyInTurn(c, items, params, v);
    case Not(d) => DecidesIsEvaluated(d, params, if v.Holds? then Holds(!v.yes) else v);
    case _ =>
  }

  /** One item more in front. */
  lemma InTurnCons(items: seq<Condition>, params: Params, on: Verdict, v: Verdict)
    requires items != [] && (v != on ==> !(Decides(items[0], params, on) && Decides(items[0], params, v)))
    ensures InTurn(items, params, on, v) <==>
              || (Decides(items[0], params, on) && InTurn(items[1..], params, on, v))
              || (v != on && Decides(items[0], params, v))
  {
    hide Decides;
    var rest := items[1..];
    assert forall i :: 0 <= i < |rest| ==> rest[i] == items[i + 1];
    assert forall i :: 0 < i < |items| ==> items[i] == rest[i - 1];
    if v != on {
      if k :| 0 <= k < |rest| && Decides(rest[k], params, v) && (forall i :: 0 <= i < k ==> Decides(rest[i], params, on)) {
        assert items[k + 1] == rest[k];
      }
    }
  }

  lemma {:induction false} AllInTurn(c: Condition, items: seq<Condition>, params: Params, v: Verdict)
    requires forall d <- items :: d < c
    ensures InTurn(items, params, Holds(true), v) <==> v == AllEvaluated(items, params)
    decreases c, |items|
  {
    hide Decides, Evaluated;
    if items != [] {
      assert items[0] in items && forall d <- items[1..] :: d in items;
      DecidesIsEvaluated(items[0], params, v);
      DecidesIsEvaluated(items[0], params, Holds(true));
      AllInTurn(c, items[1..], params, v);
      InTurnCons(items, params, Holds(true), v);
    }
  }

  lemma {:induction false} AnyInTurn(c: Condition, items: seq<Condition>, params: Params, v: Verdict)
    requires forall d <- items :: d < c
    ensures InTurn(items, params, Holds(false), v) <==> v == AnyEvaluated(items, params)
    decreases c, |items|
  {
    hide Decides, Evaluated;
    if items != [] {
      assert items[0] in items && forall d <- items[1..] :: d in items;
      DecidesIsEvaluated(items[0], params, v);
      DecidesIsEvaluated(items[0], params, Holds(false));
      AnyInTurn(c, items[1..], params, v);
      InTurnCons(items, params, Holds(false), v);
    }
  }

  // ----- steps, by rules

  /** What one step is inlined to: a step, nothing, or the trees of other steps under other values. */
  datatype Tree = Line(step: Step) | Nothing | Group(prefix: string, scope: Scope, nodes: seq<Node>, trees: seq<Tree>)

  /** The first token in the text is for `name`. */
  ghost predicate Mentions(text: string, name: string) {
    exists gs :: Reads(gs, text) && Mentioned(gs) == Some(name)
  }

  ghost predicate MentionsNothing(text: string) { exists gs :: Reads(gs, text) && Mentioned(gs) == None }

  /** The command that a reference is to: behind a slash in another orb, else in this one. */
  ghost predicate RefersTo(orb: string, ref: string, target: string, cmd: string) {
    (ref == target + "/" + cmd && '/' !in target) || ('/' !in ref && target == orb && cmd == ref)
  }

  /** A parameter's steps, with the same values, but no steps parameters any more. */
  ghost predicate IsSplice(scope: Scope, name: string, t: Tree) {
    && t.Group? && t.prefix == "" && t.scope == Scope(scope.orb, scope.params, map[])
    && t.nodes == if name in scope.stepParams then scope.stepParams[name] else []
  }

  /** The steps of a command, in its own orb, with the values of its own parameters, each named after the reference;
      a report if the orb is not there; and the step as it is shown if this is no command. */
  ghost predicate IsCommand(imports: OrbSet, scope: Scope, ref: string, args: map<string, Value>, shown: Step, t: Tree) {
    exists orb, cmd :: RefersTo(scope.orb, ref, orb, cmd) &&
      if orb in imports.broken then
        t == Line(Step(ref + " (orb unavailable, skipped)",
                       "echo \"skipped " + ref + " \U{2014} " + SingleQuoted(imports.broken[orb]) + "\"", map[]))
      else if orb in imports.orbs && cmd in imports.orbs[orb] then
        var c := imports.orbs[orb][cmd];
        && t.Group? && t.prefix == ref + ": " && t.nodes == c.steps && t.scope.orb == orb
        && AreStrings(c.params, args, scope.params, t.scope.params) && AreSteps(c.params, args, t.scope.stepParams)
      else t == Line(shown)
  }

  /** The rule for each kind of step. */
  ghost predicate Inlines(imports: OrbSet, scope: Scope, n: Node, t: Tree) {
    match n
    case Leaf(show) => t == Line(show(scope.params))
    case Word(text, shown) =>
      || (exists name :: Mentions(text, name) && IsSplice(scope, name, t))
      || (MentionsNothing(text) && IsCommand(imports, scope, text, map[], shown, t))
    case When(unless, condition, steps) =>
      || (exists why :: Decides(condition, scope.params, Unsupported(why)) &&
            t == Line(Step(if unless then "unless (skipped)" else "when (skipped)",
                           "echo \"skipped conditional steps \U{2014} " + why + "\"", map[])))
      || (Decides(condition, scope.params, Holds(!unless)) &&
            t.Group? && t.prefix == "" && t.scope == scope && t.nodes == steps)
      || (Decides(condition, scope.params, Holds(unless)) && t == Nothing)
    case Steps(ref, isList, list, shown) =>
      || (ref.Some? && exists name :: Mentions(ref.value, name) && IsSplice(scope, name, t))
      || ((ref.None? || MentionsNothing(ref.value)) &&
            if isList then t.Group? && t.prefix == "" && t.scope == scope && t.nodes == list else t == Line(shown))
    case Call(name, args, shown) => IsCommand(imports, scope, name, args, shown, t)
  }

  /** Each step has its tree, up to the level where the limit cuts off. */
  ghost predicate AllInline(imports: OrbSet, scope: Scope, nodes: seq<Node>, depth: int, trees: seq<Tree>)
    decreases trees, 1
  {
    if depth > 12 then trees == [Line(TOO_DEEP)]
    else if nodes == [] then trees == []
    else
      && trees != [] && Inlines(imports, scope, nodes[0], trees[0]) && BranchesInline(imports, trees[0], depth)
      && AllInline(imports, scope, nodes[1..], depth, trees[1..])
  }

  ghost predicate BranchesInline(imports: OrbSet, t: Tree, depth: int)
    decreases t, 0
  {
    t.Group? ==> AllInline(imports, t.scope, t.nodes, depth + 1, t.trees)
  }

  /** The steps of a tree, with the prefixes in front of their names. */
  function Yield(t: Tree): seq<Step>
    decreases t
  {
    match t
    case Line(step) => [step]
    case Nothing => []
    case Group(prefix, _, _, trees) => Prefixed(prefix, Yields(trees))
  }

  function Yields(trees: seq<Tree>): seq<Step>
    decreases trees
  {
    if trees == [] then [] else Yield(trees[0]) + Yields(trees[1..])
  }

  function Prefixed(prefix: string, steps: seq<Step>): seq<Step> {
    if steps == [] then []
    else [Step(prefix + steps[0].name, steps[0].command, steps[0].env)] + Prefixed(prefix, steps[1..])
  }

  // ----- expansion follows the rules

  lemma {:induction false} PrefixedIsRenamed(prefix: string, steps: seq<Step>)
    ensures Prefixed(prefix, steps) == Renamed(prefix, steps)
  {
    if steps != [] {
      PrefixedIsRenamed(prefix, steps[1..]);
      assert Renamed(prefix, steps)[1..] == Renamed(prefix, steps[1..]);
    }
  }

  lemma MentionsIsFirst(text: string)
    ensures forall name :: Mentions(text, name) <==> FirstToken(text, 0) == Some(name)
    ensures MentionsNothing(text) <==> FirstToken(text, 0) == None
  {
    hide Reads, Mentioned, FirstToken, Subst;
    SubstMeans(text, map[]);
    var gs :| Reads(gs, text);
  }

  lemma {:induction false} CutIs(s: string, i: nat, k: nat)
    requires i <= k <= |s| && '/' !in s[i..k] && (k < |s| ==> s[k] == '/')
    ensures Cut(s, i) == k
    decreases k - i
  {
    if i < k {
      assert s[i] == s[i..k][0] && s[i..k][1..] == s[i + 1..k];
      CutIs(s, i + 1, k);
    }
  }

  lemma SlashCuts(ref: string, target: string, cmd: string)
    requires ref == target + "/" + cmd && '/' !in target
    ensures Cut(ref, 0) == |target| < |ref| && ref[..|target|] == target && ref[|target| + 1..] == cmd
  {
    hide Cut;
    assert ref[0..|target|] == target && ref[|target|] == '/';
    CutIs(ref, 0, |target|);
  }

  lemma NoSlashNoCut(ref: string)
    requires '/' !in ref
    ensures Cut(ref, 0) == |ref|
  {
    hide Cut;
    assert ref[0..|ref|] == ref;
    CutIs(ref, 0, |ref|);
  }

  lemma {:induction false} CutMeans(s: string, i: nat)
    requires i <= |s|
    ensures '/' !in s[i..Cut(s, i)] && (Cut(s, i) < |s| ==> s[Cut(s, i)] == '/')
    decreases |s| - i
  {
    if i < |s| && s[i] != '/' {
      CutMeans(s, i + 1);
      assert s[i..Cut(s, i)] == [s[i]] + s[i + 1..Cut(s, i)];
    }
  }

  lemma RefersIsTarget(orb: string, ref: string, target: string, cmd: string)
    ensures RefersTo(orb, ref, target, cmd) <==> Target(orb, ref) == (target, cmd)
  {
    hide Cut;
    CutMeans(ref, 0);
    var k := Cut(ref, 0);
    if ref == target + "/" + cmd && '/' !in target {
      SlashCuts(ref, target, cmd);
      assert '/' in ref;
    } else if '/' !in ref {
      NoSlashNoCut(ref);
    } else {
      assert ref[0..|ref|] == ref;
      assert ref == ref[..k] + "/" + ref[k + 1..] && ref[0..k] == ref[..k];
    }
  }

  /** `r` is what the tree stands for, branches aside. */
  ghost predicate Shows(r: Reduced, t: Tree) {
    match t
    case Line(step) => r == Now([step])
    case Nothing => r == Now([])
    case Group(prefix, scope, nodes, _) => r == Nested(scope, nodes, prefix)
  }

  lemma SpliceShows(scope: Scope, name: string, t: Tree)
    ensures IsSplice(scope, name, t) <==> Shows(Spliced(scope, name), t)
  {
  }

  lemma CommandShows(imports: OrbSet, scope: Scope, ref: string, args: map<string, Value>, shown: Step, t: Tree)
    ensures var r := Reference(imports, scope, ref, args);
            IsCommand(imports, scope, ref, args, shown, t) <==> Shows(if r.Some? then r.value else Now([shown]), t)
  {
    hide Target, AreStrings, AreSteps, Strings, StepLists, SingleQuoted, RefersTo;
    var (orb, cmd) := Target(scope.orb, ref);
    forall o, d ensures RefersTo(scope.orb, ref, o, d) <==> o == orb && d == cmd { RefersIsTarget(scope.orb, ref, o, d); }
    assert RefersTo(scope.orb, ref, orb, cmd);
    if t.Group? && orb in imports.orbs && cmd in imports.orbs[orb] {
      var c := imports.orbs[orb][cmd];
      if AreStrings(c.params, args, scope.params, t.scope.params) && AreSteps(c.params, args, t.scope.stepParams) {
        OnlyThese(c.params, args, scope.params, t.scope.params, t.scope.stepParams);
      }
    }
  }

  lemma RulesReduce(imports: OrbSet, scope: Scope, n: Node, t: Tree)
    ensures Inlines(imports, scope, n, t) <==> Shows(Reduce(imports, scope, n), t)
  {
    hide IsSplice, IsCommand, Mentions, MentionsNothing, Spliced, Reference, FirstToken, Decides, Evaluated;
    match n
    case Leaf(show) =>
    case Word(text, shown) =>
      MentionsIsFirst(text);
      CommandShows(imports, scope, text, map[], shown, t);
      forall name ensures IsSplice(scope, name, t) <==> Shows(Spliced(scope, name), t) { SpliceShows(scope, name, t); }
    case When(unless, condition, steps) =>
      forall v ensures Decides(condition, scope.params, v) <==> v == Evaluated(condition, scope.params) {
        DecidesIsEvaluated(condition, scope.params, v);
      }
      assert Decides(condition, scope.params, Evaluated(condition, scope.params));
      assert "unless" + " (skipped)" == "unless (skipped)" && "when" + " (skipped)" == "when (skipped)";
    case Steps(ref, isList, list, shown) =>
      if ref.Some? { MentionsIsFirst(ref.value); }
      forall name ensures IsSplice(scope, name, t) <==> Shows(Spliced(scope, name), t) { SpliceShows(scope, name, t); }
    case Call(name, args, shown) => CommandShows(imports, scope, name, args, shown, t);
  }

  lemma {:induction false} TreesAreExpanded(imports: OrbSet, scope: Scope, nodes: seq<Node>, depth: int, trees: seq<Tree>)
    requires AllInline(imports, scope, nodes, depth, trees)
    ensures Expanded(imports, scope, nodes, depth) == Yields(trees)
    decreases trees, 1
  {
    hide Inlines, Reduce, BranchesInline;
    if depth > MAX_DEPTH {
      assert trees[1..] == [];
    } else if nodes != [] {
      TreeIsExpanded(imports, scope, nodes[0], depth, trees[0]);
      TreesAreExpanded(imports, scope, nodes[1..], depth, trees[1..]);
    }
  }

  lemma TreeIsExpanded(imports: OrbSet, scope: Scope, n: Node, depth: int, t: Tree)
    requires depth <= MAX_DEPTH && Inlines(imports, scope, n, t) && BranchesInline(imports, t, depth)
    ensures Unfolded(imports, Reduce(imports, scope, n), depth) == Yield(t)
    decreases t, 0
  {
    hide Inlines, Reduce, AllInline, Expanded;
    RulesReduce(imports, scope, n, t);
    if t.Group? {
      TreesAreExpanded(imports, t.scope, t.nodes, depth + 1, t.trees);
      PrefixedIsRenamed(t.prefix, Yields(t.trees));
    }
  }

  lemma {:induction false} SomeTrees(imports: OrbSet, scope: Scope, nodes: seq<Node>, depth: int) returns (trees: seq<Tree>)
    ensures AllInline(imports, scope, nodes, depth, trees)
    decreases Room(depth), |nodes|
  {
    hide Inlines, Reduce;
    if depth > MAX_DEPTH {
      trees := [Line(TOO_DEEP)];
    } else if nodes == [] {
      trees := [];
    } else {
      var r := Reduce(imports, scope, nodes[0]);
      OneStepAtMost(imports, scope, nodes[0]);
      var t;
      if r.Nested? {
        var inner := SomeTrees(imports, r.scope, r.nodes, depth + 1);
        t := Group(r.prefix, r.scope, r.nodes, inner);
      } else {
        t := if r.steps == [] then Nothing else Line(r.steps[0]);
      }
      RulesReduce(imports, scope, nodes[0], t);
      var more := SomeTrees(imports, scope, nodes[1..], depth);
      trees := [t] + more;
      assert trees[0] == t && trees[1..] == more;
    }
  }

  lemma OneStepAtMost(imports: OrbSet, scope: Scope, n: Node)
    ensures var r := Reduce(imports, scope, n); r.Now? ==> |r.steps| <= 1
  {
    hide Evaluated, FirstToken, Target, Strings, StepLists;
  }

  /** Every list of steps can be inlined by the rules, and whichever way that is done, expansion puts out its steps. */
  lemma ExpansionIsInlining(imports: OrbSet, scope: Scope, nodes: seq<Node>, depth: int)
    ensures exists trees :: AllInline(imports, scope, nodes, depth, trees)
    ensures forall trees :: AllInline(imports, scope, nodes, depth, trees) ==>
              Expanded(imports, scope, nodes, depth) == Yields(trees)
  {
    hide AllInline, Expanded, Yields;
    var trees := SomeTrees(imports, scope, nodes, depth);
    forall trees | AllInline(imports, scope, nodes, depth, trees)
      ensures Expanded(imports, scope, nodes, depth) == Yields(trees)
    {
      TreesAreExpanded(imports, scope, nodes, depth, trees);
    }
  }
}
