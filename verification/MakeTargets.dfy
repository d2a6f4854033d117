/** Expansion of a make target into the plain component names it stands for, following $(...) references. */
module MakeTargets {

  type Targets = map<string, set<string>>

  /** How an expansion ends: with the components, or with one of the two errors that stop it. */
  datatype Outcome = Expanded | Circular | Undefined

  const DEPLOYMENTS := "DEPLOYMENTS"
  const MODULES := "_MODULES"

  predicate IsReference(component: string) {
    "$(" <= component
  }

  /** The name inside $(...): everything after the first two characters but the last one. */
  function Referenced(component: string): string
    requires IsReference(component)
  {
    if |component| == 2 then "" else component[2..|component| - 1]
  }

  /** A deployment name stands for its _MODULES entry. */
  function Resolve(targets: Targets, name: string): string {
    if DEPLOYMENTS in targets && name in targets[DEPLOYMENTS] then name + MODULES else name
  }

  predicate RefersTo(targets: Targets, from: string, to: string) {
    from in targets && exists c :: c in targets[from] && IsReference(c) && Resolve(targets, Referenced(c)) == to
  }

  /** What is written $(name) refers to that name, and nothing else does: the first two characters and the last one are
      dropped, whatever the last one is. */
  lemma WrittenReference(name: string, last: char)
    ensures IsReference("$(" + name + ")") && Referenced("$(" + name + ")") == name
    ensures IsReference("$(" + name + [last]) && Referenced("$(" + name + [last]) == name
    ensures Referenced("$(") == ""
  {
    assert ("$(" + name + ")")[2..|name| + 2] == name;
    assert ("$(" + name + [last])[2..|name| + 2] == name;
  }

  /** References are the components that begin with a dollar sign and an opening parenthesis. */
  lemma ReferenceIff(component: string)
    ensures IsReference(component) <==> |component| >= 2 && component[0] == '$' && component[1] == '('
  {}

  /** A name listed under DEPLOYMENTS stands for that name with _MODULES behind it, any other for itself. */
  lemma ResolvedNames(targets: Targets, name: string)
    ensures "DEPLOYMENTS" in targets && name in targets["DEPLOYMENTS"] ==> Resolve(targets, name) == name + "_MODULES"
    ensures "DEPLOYMENTS" !in targets || name !in targets["DEPLOYMENTS"] ==> Resolve(targets, name) == name
  {}

  /** A chain of references. */
  predicate IsWalk(targets: Targets, walk: seq<string>) {
    |walk| > 0 && forall i :: 0 <= i < |walk| - 1 ==> RefersTo(targets, walk[i], walk[i + 1])
  }

  predicate WalkFrom(targets: Targets, start: string, walk: seq<string>) {
    IsWalk(targets, walk) && walk[0] == start
  }

  function Last(walk: seq<string>): string
    requires |walk| > 0
  {
    walk[|walk| - 1]
  }

  predicate NoRepeat(walk: seq<string>) {
    forall i, j :: 0 <= i < j < |walk| ==> walk[i] != walk[j]
  }

  /** No chain of references from start, after the targets already being expanded, comes back to one of them
      or ends at an undefined target. With an empty trail: the reachable graph is acyclic and defined. */
  ghost predicate Expandable(targets: Targets, trail: seq<string>, start: string) {
    forall walk :: WalkFrom(targets, start, walk) ==> Last(walk) in targets && NoRepeat(trail + walk)
  }

  /** A walk from start ends at a target that lists the plain name. */
  predicate Lists(targets: Targets, start: string, walk: seq<string>, name: string) {
    WalkFrom(targets, start, walk) && Last(walk) in targets && name in targets[Last(walk)] && !IsReference(name)
  }

  ghost predicate Reaches(targets: Targets, start: string, name: string) {
    exists walk :: Lists(targets, start, walk, name)
  }

  lemma ExtendWalk(targets: Targets, from: string, to: string, walk: seq<string>)
    requires RefersTo(targets, from, to) && WalkFrom(targets, to, walk)
    ensures WalkFrom(targets, from, [from] + walk) && Last([from] + walk) == Last(walk)
  {
    var longer := [from] + walk;
    forall i | 0 <= i < |longer| - 1 ensures RefersTo(targets, longer[i], longer[i + 1]) {
      if i > 0 { assert RefersTo(targets, walk[i - 1], walk[i]); }
    }
  }

  lemma ShortenWalk(targets: Targets, from: string, walk: seq<string>)
    requires WalkFrom(targets, from, walk) && |walk| > 1
    ensures RefersTo(targets, from, walk[1]) && WalkFrom(targets, walk[1], walk[1..])
    ensures Last(walk[1..]) == Last(walk) && walk == [from] + walk[1..]
  {
    forall i | 0 <= i < |walk[1..]| - 1 ensures RefersTo(targets, walk[1..][i], walk[1..][i + 1]) {
      assert RefersTo(targets, walk[i + 1], walk[i + 2]);
    }
    assert RefersTo(targets, walk[0], walk[0 + 1]);
  }

  lemma NoRepeatAppended(trail: seq<string>, name: string)
    requires NoRepeat(trail)
    ensures NoRepeat(trail + [name]) <==> name !in trail
  {
    var longer := trail + [name];
    if name in trail {
      var i :| 0 <= i < |trail| && trail[i] == name;
      assert longer[i] == longer[|trail|];
    }
  }

  /** A target can be expanded exactly when it is defined, not already on the trail, and everything it refers to
      can be expanded after it. */
  lemma ExpandableStep(targets: Targets, trail: seq<string>, start: string)
    requires NoRepeat(trail)
    ensures Expandable(targets, trail, start) <==>
              && start in targets && start !in trail
              && forall next :: RefersTo(targets, start, next) ==> Expandable(targets, trail + [start], next)
  {
    if Expandable(targets, trail, start) {
      assert WalkFrom(targets, start, [start]) && Last([start]) == start;
      NoRepeatAppended(trail, start);
      forall next | RefersTo(targets, start, next) ensures Expandable(targets, trail + [start], next) {
        ExpandableNext(targets, trail, start, next);
      }
    }
    if && start in targets && start !in trail
       && forall next :: RefersTo(targets, start, next) ==> Expandable(targets, trail + [start], next)
    {
      ExpandableHere(targets, trail, start);
    }
  }

  lemma ExpandableNext(targets: Targets, trail: seq<string>, start: string, next: string)
    requires Expandable(targets, trail, start) && RefersTo(targets, start, next)
    ensures Expandable(targets, trail + [start], next)
  {
    forall walk | WalkFrom(targets, next, walk) ensures Last(walk) in targets && NoRepeat(trail + [start] + walk) {
      ExtendWalk(targets, start, next, walk);
      assert trail + [start] + walk == trail + ([start] + walk);
    }
  }

  lemma ExpandableHere(targets: Targets, trail: seq<string>, start: string)
    requires NoRepeat(trail) && start in targets && start !in trail
    requires forall next :: RefersTo(targets, start, next) ==> Expandable(targets, trail + [start], next)
    ensures Expandable(targets, trail, start)
  {
    NoRepeatAppended(trail, start);
    forall walk | WalkFrom(targets, start, walk) ensures Last(walk) in targets && NoRepeat(trail + walk) {
      if |walk| == 1 {
        assert walk == [start];
      } else {
        ShortenWalk(targets, start, walk);
        assert Expandable(targets, trail + [start], walk[1]);
        assert trail + walk == trail + [start] + walk[1..];
      }
    }
  }

  /** The names reached are the plain ones listed here and those reached through a reference. */
  lemma ReachesStep(targets: Targets, start: string, name: string)
    requires start in targets
    ensures Reaches(targets, start, name) <==>
              || (name in targets[start] && !IsReference(name))
              || exists next :: RefersTo(targets, start, next) && Reaches(targets, next, name)
  {
    if Reaches(targets, start, name) {
      var walk :| Lists(targets, start, walk, name);
      if |walk| > 1 {
        ShortenWalk(targets, start, walk);
        assert Lists(targets, walk[1], walk[1..], name);
      }
    }
    if name in targets[start] && !IsReference(name) {
      assert Lists(targets, start, [start], name);
    }
    if exists next :: RefersTo(targets, start, next) && Reaches(targets, next, name) {
      var next :| RefersTo(targets, start, next) && Reaches(targets, next, name);
      var walk :| Lists(targets, next, walk, name);
      ExtendWalk(targets, start, next, walk);
      assert Lists(targets, start, [start] + walk, name);
    }
  }

  /** A name listed by, or reached through, one of the components. */
  ghost predicate ReachedBy(targets: Targets, components: set<string>, name: string) {
    || (name in components && !IsReference(name))
    || exists c :: c in components && IsReference(c) && Reaches(targets, Resolve(targets, Referenced(c)), name)
  }

  lemma ReachedByStep(targets: Targets, components: set<string>, component: string)
    ensures forall name :: ReachedBy(targets, components + {component}, name) <==>
              || ReachedBy(targets, components, name)
              || if IsReference(component) then Reaches(targets, Resolve(targets, Referenced(component)), name)
                 else name == component
  {}

  /** An error behind a reference is an error of the target. */
  lemma FailingReference(targets: Targets, trail: seq<string>, from: string, to: string)
    requires RefersTo(targets, from, to)
    ensures !Expandable(targets, trail + [from], to) ==> !Expandable(targets, trail, from)
    ensures (exists walk :: WalkFrom(targets, to, walk) && !NoRepeat(trail + [from] + walk)) ==>
              exists walk :: WalkFrom(targets, from, walk) && !NoRepeat(trail + walk)
    ensures (exists walk :: WalkFrom(targets, to, walk) && Last(walk) !in targets) ==>
              exists walk :: WalkFrom(targets, from, walk) && Last(walk) !in targets
  {
    forall walk | WalkFrom(targets, to, walk)
      ensures WalkFrom(targets, from, [from] + walk) && Last([from] + walk) == Last(walk)
      ensures trail + [from] + walk == trail + ([from] + walk)
    {
      ExtendWalk(targets, from, to, walk);
    }
  }

  /** A plain name listed by a target, or by what one of its references stands for, is reached. */
  lemma ListedIsReached(targets: Targets, start: string, inner: string, name: string)
    requires start in targets && !("$(" <= name)
    ensures name in targets[start] ==> Reaches(targets, start, name)
    ensures var next := if "DEPLOYMENTS" in targets && inner in targets["DEPLOYMENTS"] then inner + "_MODULES"
                        else inner;
            "$(" + inner + ")" in targets[start] && next in targets && name in targets[next] ==>
              Reaches(targets, start, name)
  {
    hide Reaches;
    ReachesStep(targets, start, name);
    WrittenReference(inner, ')');
    ResolvedNames(targets, inner);
    var next := Resolve(targets, inner);
    if next in targets { ReachesStep(targets, next, name); }
    assert "$(" + inner + ")" in targets[start] ==> RefersTo(targets, start, next);
  }

  lemma ReferencesDefined(targets: Targets, target: string, inner: string)
    requires Expandable(targets, [], target)
    ensures target in targets
    ensures "$(" + inner + ")" in targets[target] ==>
              (if "DEPLOYMENTS" in targets && inner in targets["DEPLOYMENTS"] then inner + "_MODULES" else inner)
              in targets
  {
    hide Expandable;
    ExpandableStep(targets, [], target);
    WrittenReference(inner, ')');
    ResolvedNames(targets, inner);
    if "$(" + inner + ")" in targets[target] {
      var next := Resolve(targets, inner);
      assert RefersTo(targets, target, next);
      ExpandableStep(targets, [] + [target], next);
    }
  }

  class MakeExpander {
    const targets: Targets
    var stack: set<string>
    var components: map<string, seq<string>>

    constructor (targets: Targets)
      ensures this.targets == targets && stack == {} && components == map[]
    {
      this.targets := targets;
      stack, components := {}, map[];
    }

    /** The recursive expansion. trail is the stack in the order it was pushed. */
    method ExpandRecursive(makeTarget: string, ghost trail: seq<string>) returns (outcome: Outcome)
      requires NoRepeat(trail) && forall name :: name in stack <==> name in trail
      modifies this
      ensures outcome.Expanded? <==> Expandable(targets, trail, Resolve(targets, makeTarget))
      ensures outcome.Circular? ==>
                exists walk :: WalkFrom(targets, Resolve(targets, makeTarget), walk) && !NoRepeat(trail + walk)
      ensures outcome.Undefined? ==>
                exists walk :: WalkFrom(targets, Resolve(targets, makeTarget), walk) && Last(walk) !in targets
      ensures outcome.Expanded? ==> stack == old(stack)
      ensures outcome.Expanded? ==> forall name ::
                name in components <==> name in old(components) || Reaches(targets, Resolve(targets, makeTarget), name)
      ensures outcome.Expanded? ==> forall name :: name in components ==>
                components[name] == if Reaches(targets, Resolve(targets, makeTarget), name) then [name]
                  else old(components)[name]
      decreases targets.Keys - stack
    {
      var target := if DEPLOYMENTS in targets && targets[DEPLOYMENTS] != {} && makeTarget in targets[DEPLOYMENTS]
                    then makeTarget + MODULES else makeTarget;
      ExpandableStep(targets, trail, target);
      assert WalkFrom(targets, target, [target]);
      if target in stack {
        NoRepeatAppended(trail, target);
        return Circular;
      }
      stack := stack + {target};
      if target !in targets {
        assert Last([target]) == target;
        return Undefined;
      }
      ghost var longer := trail + [target];
      var todo := targets[target];
      while todo != {}
        invariant todo <= targets[target]
        invariant stack == old(stack) + {target}
        invariant forall c :: c in targets[target] - todo && IsReference(c) ==>
                    Expandable(targets, longer, Resolve(targets, Referenced(c)))
        invariant forall name :: name in components <==>
                    name in old(components) || ReachedBy(targets, targets[target] - todo, name)
        invariant forall name :: name in components ==>
                    components[name] == if ReachedBy(targets, targets[target] - todo, name) then [name]
                      else old(components)[name]
      {
        var component :| component in todo;
        ReachedByStep(targets, targets[target] - todo, component);
        assert targets[target] - (todo - {component}) == targets[target] - todo + {component};
        if IsReference(component) {
          ghost var next := Resolve(targets, Referenced(component));
          assert RefersTo(targets, target, next);
          outcome := ExpandRecursive(Referenced(component), longer);
          if outcome != Expanded {
            FailingReference(targets, trail, target, next);
            return;
          }
        } else {
          components := components[component := [component]];
        }
        todo := todo - {component};
      }
      stack := stack - {target};
      forall name ensures ReachedBy(targets, targets[target], name) <==> Reaches(targets, target, name) {
        ReachesStep(targets, target, name);
      }
      return Expanded;
    }
  }

  /** A $(inner) in the target's list brings in what inner, or inner_MODULES for a deployment, lists. */
  ghost predicate BringsIn(targets: Targets, target: string, inner: string, components: map<string, seq<string>>)
    requires target in targets
  {
    "$(" + inner + ")" in targets[target] ==>
      && (if "DEPLOYMENTS" in targets && inner in targets["DEPLOYMENTS"] then inner + "_MODULES" else inner) in targets
      && forall name :: !("$(" <= name) && Included(targets, target, inner, name) ==> name in components
  }

  predicate Included(targets: Targets, target: string, inner: string, name: string)
    requires target in targets
  {
    && "$(" + inner + ")" in targets[target]
    && var next := if "DEPLOYMENTS" in targets && inner in targets["DEPLOYMENTS"] then inner + "_MODULES" else inner;
       next in targets && name in targets[next]
  }

  /** The top-level call starts with an empty stack and dictionary: it returns the components exactly when every
      chain of references from the deployment stays defined and never repeats, and then it returns exactly the
      plain names those chains reach. */
  method ExpandTarget(makeTarget: string, targets: Targets)
    returns (outcome: Outcome, components: map<string, seq<string>>)
    ensures outcome.Expanded? <==> Expandable(targets, [], Resolve(targets, makeTarget))
    ensures outcome.Circular? ==>
              exists walk :: WalkFrom(targets, Resolve(targets, makeTarget), walk) && !NoRepeat(walk)
    ensures outcome.Undefined? ==>
              exists walk :: WalkFrom(targets, Resolve(targets, makeTarget), walk) && Last(walk) !in targets
    ensures outcome.Expanded? ==>
              forall name :: name in components <==> Reaches(targets, Resolve(targets, makeTarget), name)
    ensures outcome.Expanded? ==> forall name :: name in components ==> components[name] == [name]
    ensures var target := if "DEPLOYMENTS" in targets && makeTarget in targets["DEPLOYMENTS"]
                          then makeTarget + "_MODULES" else makeTarget;
            outcome.Expanded? ==>
              && target in targets
              && (forall name :: name in targets[target] && !("$(" <= name) ==> name in components)
              && forall inner :: BringsIn(targets, target, inner, components)
  {
    var expander := new MakeExpander(targets);
    outcome := expander.ExpandRecursive(makeTarget, []);
    components := expander.components;
    forall walk: seq<string> ensures [] + walk == walk {}
    if outcome.Expanded? {
      ResolvedNames(targets, makeTarget);
      var target := Resolve(targets, makeTarget);
      ReferencesDefined(targets, target, "");
      forall name | name in targets[target] && !("$(" <= name) ensures name in components {
        ListedIsReached(targets, target, "", name);
      }
      forall inner ensures BringsIn(targets, target, inner, components) {
        ReferencesDefined(targets, target, inner);
        forall name | !("$(" <= name) && Included(targets, target, inner, name) ensures name in components {
          ListedIsReached(targets, target, inner, name);
        }
      }
    }
  }
}
