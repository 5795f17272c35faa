/**
 * The override resolver as the source runs it: one loop over the
 * declarations that sets `unused` flags in place, keeps a scratch override
 * mapping, and restarts from the first declaration after any removal.
 */
module Optimizer {
  import opened Wrappers
  import opened Declarations
  import opened Resolution
  import Shorthands

  /**
   * Marks superseded declarations of one block unused. `unused[i]` is the
   * flag of `properties[i]`; nothing else about a declaration changes.
   */
  method Optimize(
    properties: seq<Decl>,
    unused: array<bool>,
    mergeAdjacent: Policy,
    aggressiveMerging: bool,
    canOverride: string -> Option<OverrideCheck>)
    requires unused.Length == |properties|
    modifies unused
    ensures unused[..] == Resolve(Config(properties, mergeAdjacent, aggressiveMerging, canOverride), old(unused[..]))
    ensures forall i :: 0 <= i < unused.Length && old(unused[i]) ==> unused[i]
  {
    ghost var c := Config(properties, mergeAdjacent, aggressiveMerging, canOverride);
    var overrideMapping: map<string, seq<int>> := map[];
    var lastName: Option<string> := None;
    var lastProperty: Option<nat> := None;
    var position: nat := 0;
    var total := |properties|;

    while position < total
      invariant Valid(c, State(unused[..], overrideMapping, lastName, lastProperty, position))
      invariant Run(c, State(unused[..], overrideMapping, lastName, lastProperty, position)) == Resolve(c, old(unused[..]))
      decreases Live(unused[..]), total - position
    {
      ghost var before := State(unused[..], overrideMapping, lastName, lastProperty, position);
      RunStep(c, before);
      overrideMapping, lastName, lastProperty, position :=
        VisitDeclaration(properties, unused, mergeAdjacent, aggressiveMerging, canOverride,
                         overrideMapping, lastName, lastProperty, position, c);
    }
  }

  /**
   * One iteration of the declaration loop: the declaration at `position` is
   * skipped, collapsed as a duplicate, scanned against its candidates or
   * registered, and the loop variables for the next iteration are
   * returned (position 0 after a removal, where the source sets the
   * position to -1 and the loop increment brings it to 0).
   */
  method VisitDeclaration(
    properties: seq<Decl>,
    unused: array<bool>,
    mergeAdjacent: Policy,
    aggressiveMerging: bool,
    canOverride: string -> Option<OverrideCheck>,
    overrideMapping: map<string, seq<int>>,
    lastName: Option<string>,
    lastProperty: Option<nat>,
    position: nat,
    ghost c: Config)
    returns (overrideMapping': map<string, seq<int>>, lastName': Option<string>, lastProperty': Option<nat>, position': nat)
    requires c == Config(properties, mergeAdjacent, aggressiveMerging, canOverride)
    requires Valid(c, State(unused[..], overrideMapping, lastName, lastProperty, position)) && position < |properties|
    modifies unused
    ensures State(unused[..], overrideMapping', lastName', lastProperty', position')
      == Step(c, State(old(unused[..]), overrideMapping, lastName, lastProperty, position))
  {
    ghost var before := State(unused[..], overrideMapping, lastName, lastProperty, position);
    overrideMapping', lastName', lastProperty', position' := overrideMapping, lastName, lastProperty, position + 1;
    var property := properties[position];
    var name := EffectiveName(property.name, lastName);
    var isImportant := property.important;
    var isHack := property.hack;

    if unused[position] {
      StepSkipsUnused(c, before);
      return;
    }

    if position > 0 && lastProperty.Some? && Some(name) == lastName
      && isImportant == properties[lastProperty.value].important
      && isHack == properties[lastProperty.value].hack
      && properties[position - 1].text == property.text
      && !unused[lastProperty.value]
    {
      StepCollapsesDuplicate(c, before);
      unused[position] := true;
      return;
    }
    assert !IsDuplicate(c, before);

    if name in overrideMapping && ((aggressiveMerging && Some(name) != lastName) || MergeablePosition(mergeAdjacent, position)) {
      assert Eligible(c, before);
      overrideMapping', lastName', lastProperty', position' :=
        ScanDeclaration(properties, unused, canOverride, overrideMapping, lastName, lastProperty, position, name, c);
    } else {
      assert !Eligible(c, before);
      StepRegisters(c, before);
      overrideMapping' := RegisterPosition(overrideMapping, name, position);
      lastName' := Some(name);
      lastProperty' := Some(position);
    }
  }

  /**
   * The iteration of a live, non-duplicate declaration that has candidates
   * and may be merged: its candidates are scanned, and afterwards it is
   * marked unused, the pass restarts, or it becomes the last declaration.
   */
  method ScanDeclaration(
    properties: seq<Decl>,
    unused: array<bool>,
    canOverride: string -> Option<OverrideCheck>,
    overrideMapping: map<string, seq<int>>,
    lastName: Option<string>,
    lastProperty: Option<nat>,
    position: nat,
    name: string,
    ghost c: Config)
    returns (overrideMapping': map<string, seq<int>>, lastName': Option<string>, lastProperty': Option<nat>, position': nat)
    requires c.decls == properties && c.canOverride == canOverride
    requires Valid(c, State(unused[..], overrideMapping, lastName, lastProperty, position)) && position < |properties|
    requires !unused[position] && name == EffName(c, State(unused[..], overrideMapping, lastName, lastProperty, position))
    requires Eligible(c, State(unused[..], overrideMapping, lastName, lastProperty, position))
    modifies unused
    ensures State(unused[..], overrideMapping', lastName', lastProperty', position')
      == ScanStep(c, State(old(unused[..]), overrideMapping, lastName, lastProperty, position))
  {
    ghost var before := State(unused[..], overrideMapping, lastName, lastProperty, position);
    assert forall i :: 0 <= i < |overrideMapping[name]| ==> 0 <= overrideMapping[name][i] < position;
    var lost, anyRemoved := ScanCandidates(properties, unused, position, name, overrideMapping[name], canOverride(name), c);
    if lost {
      // the source leaves the scan with `continue propertyLoop`
      return overrideMapping, lastName, Some(position), position + 1;
    }
    if anyRemoved {
      return map[], None, None, 0;
    }
    return overrideMapping, Some(name), Some(position), position + 1;
  }

  /**
   * The scan of the candidates of the declaration at `position` under
   * `name`, newest first. When an important candidate wins, the current
   * declaration is marked unused and the scan stops (`lost`); otherwise
   * each overridable live candidate is marked unused (`anyRemoved`).
   */
  method ScanCandidates(
    properties: seq<Decl>,
    unused: array<bool>,
    position: nat,
    name: string,
    toOverridePositions: seq<int>,
    check: Option<OverrideCheck>,
    ghost c: Config)
    returns (lost: bool, anyRemoved: bool)
    requires c.decls == properties && c.canOverride(name) == check
    requires unused.Length == |properties| && position < |properties|
    requires forall i :: 0 <= i < |toOverridePositions| ==> 0 <= toOverridePositions[i] < position
    modifies unused
    ensures var r := Scan(c, position, name, toOverridePositions, old(unused[..]), false);
      && lost == r.Lost?
      && (lost ==> unused[..] == r.unused[position := true])
      && (!lost ==> unused[..] == r.unused && anyRemoved == r.anyRemoved)
  {
    var property := properties[position];
    anyRemoved := false;
    lost := false;

    assert toOverridePositions[..|toOverridePositions|] == toOverridePositions;
    for j := |toOverridePositions| downto 0
      invariant Scan(c, position, name, toOverridePositions[..j], unused[..], anyRemoved)
        == Scan(c, position, name, toOverridePositions, old(unused[..]), false)
    {
      assert toOverridePositions[..j + 1][..j] == toOverridePositions[..j];
      ScanNewest(c, position, name, toOverridePositions[..j + 1], unused[..], anyRemoved);
      var q := toOverridePositions[j];
      var verdict := JudgeCandidate(properties[q], unused[q], property, name, check);

      if verdict == Skip {
        continue;
      }
      if verdict == DropCurrent {
        unused[position] := true;
        lost := true;
        return;
      } else {
        anyRemoved := true;
        unused[q] := true;
      }
    }
    assert toOverridePositions[..0] == [];
  }

  /**
   * The tests of one candidate in the inner loop, in the source's order:
   * the five `continue`s give `Skip`, the important winner `DropCurrent`,
   * and everything else `DropEarlier`.
   */
  method JudgeCandidate(toRemove: Decl, toRemoveUnused: bool, property: Decl, name: string, check: Option<OverrideCheck>)
    returns (verdict: Verdict)
    ensures verdict == Judge(check, name, toRemove, toRemoveUnused, property)
  {
    var isImportant := property.important;
    var isHack := property.hack;
    var longhandToShorthand := toRemove.name != name;
    var wasImportant := toRemove.important;
    var wasHack := toRemove.hack;

    if toRemoveUnused {
      return Skip;
    }
    if longhandToShorthand && wasImportant {
      return Skip;
    }
    if !wasImportant && ((IsHack(wasHack) && !IsHack(isHack)) || (!IsHack(wasHack) && IsHack(isHack))) {
      return Skip;
    }
    if wasImportant && (isHack == Star || isHack == Underscore) {
      return Skip;
    }
    if !IsHack(wasHack) && !IsHack(isHack) && !longhandToShorthand && check.Some? && !check.value(toRemove, property) {
      return Skip;
    }
    if (wasImportant && !isImportant) || (wasImportant && IsHack(isHack)) {
      return DropCurrent;
    }
    return DropEarlier;
  }

  /**
   * Records `position` under `name` and under every shorthand group of
   * `name`, the groups taken from the last to the first.
   */
  method RegisterPosition(overrideMapping: map<string, seq<int>>, name: string, position: int)
    returns (m: map<string, seq<int>>)
    ensures m == Register(overrideMapping, name, position)
  {
    m := Push(overrideMapping, name, position);
    ghost var registered := m;
    var shorthands := Shorthands.Of(name);
    assert shorthands[..|shorthands|] == shorthands;
    for k := |shorthands| downto 0
      invariant PushAll(m, shorthands[..k], position) == PushAll(registered, shorthands, position)
    {
      assert shorthands[..k + 1][..k] == shorthands[..k];
      PushAllLast(m, shorthands[..k + 1], position);
      m := Push(m, shorthands[k], position);
    }
    assert shorthands[..0] == [];
  }
}
