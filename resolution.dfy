/**
 * A functional specification of the override resolver: one candidate
 * verdict (Judge), the newest-to-oldest candidate scan (Scan), one
 * iteration of the declaration loop (Step) and the whole pass with its
 * restarts (Run, Resolve). The imperative resolver in module Optimizer is
 * proved to compute exactly Resolve.
 */
module Resolution {
  import opened Wrappers
  import opened Declarations
  import Shorthands

  /** `compactable[name].canOverride`, with the value validator closed over. */
  type OverrideCheck = (Decl, Decl) -> bool

  /** The inputs of one resolver call that never change during it. */
  datatype Config = Config(
    decls: seq<Decl>,
    mergeAdjacent: Policy,
    aggressiveMerging: bool,
    canOverride: string -> Option<OverrideCheck>)

  /**
   * The state of the loop at the top of an iteration: the `unused` flags,
   * the override mapping, the name and position of the last declaration
   * and the loop position.
   */
  datatype State = State(
    unused: seq<bool>,
    overrideMapping: map<string, seq<int>>,
    lastName: Option<string>,
    lastProperty: Option<nat>,
    position: nat)

  /** The state the resolver starts with, and restarts with after a removal. */
  function Start(unused: seq<bool>): State {
    State(unused, map[], None, None, 0)
  }

  /** The number of declarations not (yet) marked unused. */
  function Live(unused: seq<bool>): nat {
    if unused == [] then 0 else (if unused[0] then 0 else 1) + Live(unused[1..])
  }

  /** Marking one live declaration unused takes exactly one from the live count. */
  lemma {:induction false} LiveMark(unused: seq<bool>, i: int)
    requires 0 <= i < |unused| && !unused[i]
    ensures Live(unused[i := true]) == Live(unused) - 1
  {
    if i > 0 {
      assert unused[i := true][1..] == unused[1..][i - 1 := true];
      LiveMark(unused[1..], i - 1);
    } else {
      assert unused[i := true][1..] == unused[1..];
    }
  }

  /** The positions recorded in a mapping, all valid indices below `bound`. */
  ghost predicate MappingBelow(m: map<string, seq<int>>, bound: int) {
    forall k, i :: k in m && 0 <= i < |m[k]| ==> 0 <= m[k][i] < bound
  }

  /** A mapping below one bound is below any larger one. */
  lemma BelowRaise(m: map<string, seq<int>>, bound: int, larger: int)
    requires MappingBelow(m, bound) && bound <= larger
    ensures MappingBelow(m, larger)
  {
  }

  /** The invariant of the declaration loop. */
  ghost predicate Valid(c: Config, s: State) {
    && |s.unused| == |c.decls|
    && s.position <= |c.decls|
    && MappingBelow(s.overrideMapping, s.position)
    && (s.lastProperty.Some? ==> s.lastProperty.value < s.position)
  }

  /** The candidates recorded under `key`, none if it has no entry. */
  function Candidates(m: map<string, seq<int>>, key: string): seq<int> {
    if key in m then m[key] else []
  }

  /** `overrideMapping[key] = overrideMapping[key] || []; overrideMapping[key].push(p)`. */
  function Push(m: map<string, seq<int>>, key: string, p: int): (r: map<string, seq<int>>)
    ensures r.Keys == m.Keys + {key}
    ensures forall k :: k in m && k != key ==> r[k] == m[k]
    ensures MappingBelow(m, p + 1) && 0 <= p ==> MappingBelow(r, p + 1)
  {
    m[key := Candidates(m, key) + [p]]
  }

  /** Pushes `p` under every key of `keys`, from the last key to the first. */
  function PushAll(m: map<string, seq<int>>, keys: seq<string>, p: int): (r: map<string, seq<int>>)
    ensures MappingBelow(m, p + 1) && 0 <= p ==> MappingBelow(r, p + 1)
    decreases |keys|
  {
    if keys == [] then m else PushAll(Push(m, keys[|keys| - 1], p), keys[..|keys| - 1], p)
  }

  /** One registration step: the last key is pushed first. */
  lemma PushAllLast(m: map<string, seq<int>>, keys: seq<string>, p: int)
    requires keys != []
    ensures PushAll(m, keys, p) == PushAll(Push(m, keys[|keys| - 1], p), keys[..|keys| - 1], p)
  {
  }

  /** Registration: `p` under the effective name and under each of its shorthands. */
  function Register(m: map<string, seq<int>>, name: string, p: int): (r: map<string, seq<int>>)
    ensures MappingBelow(m, p + 1) && 0 <= p ==> MappingBelow(r, p + 1)
  {
    PushAll(Push(m, name, p), Shorthands.Of(name), p)
  }

  /** What the scan decides about one earlier candidate. */
  datatype Verdict = Skip | DropCurrent | DropEarlier

  /** The `canOverride` skip rule: both unhacked, same name, and the check says no. */
  predicate Vetoed(check: Option<OverrideCheck>, name: string, earlier: Decl, current: Decl) {
    !IsHack(earlier.hack) && !IsHack(current.hack) && earlier.name == name
    && check.Some? && !check.value(earlier, current)
  }

  /**
   * The verdict on one earlier candidate against the current declaration,
   * tracked under the effective name `name`.
   */
  function Judge(check: Option<OverrideCheck>, name: string, earlier: Decl, earlierUnused: bool, current: Decl): Verdict
  {
    var longhandToShorthand := earlier.name != name;
    var wasHack := IsHack(earlier.hack);
    var isHack := IsHack(current.hack);
    if earlierUnused then Skip
    else if longhandToShorthand && earlier.important then Skip
    else if !earlier.important && ((wasHack && !isHack) || (!wasHack && isHack)) then Skip
    else if earlier.important && (current.hack == Star || current.hack == Underscore) then Skip
    else if !wasHack && !isHack && !longhandToShorthand && check.Some? && !check.value(earlier, current) then Skip
    else if (earlier.important && !current.important) || (earlier.important && isHack) then DropCurrent
    else DropEarlier
  }

  /**
   * What each verdict means: an earlier candidate is dropped exactly when it
   * is live, not vetoed, and either important against an important
   * unhacked current declaration of its own name or not important with the
   * same hack presence as the current one; the current declaration is
   * dropped exactly when a live, unvetoed, important candidate of its name
   * faces it while it is not important or has a hack other than star or
   * underscore; and every skip of a live candidate is one of the four skip
   * rules.
   */
  lemma JudgeVerdicts(check: Option<OverrideCheck>, name: string, earlier: Decl, earlierUnused: bool, current: Decl)
    ensures Judge(check, name, earlier, earlierUnused, current) == DropEarlier <==>
      && !earlierUnused
      && !Vetoed(check, name, earlier, current)
      && (earlier.important ==> current.important && !IsHack(current.hack) && earlier.name == name)
      && (!earlier.important ==> IsHack(earlier.hack) == IsHack(current.hack))
    ensures Judge(check, name, earlier, earlierUnused, current) == DropCurrent <==>
      && !earlierUnused
      && !Vetoed(check, name, earlier, current)
      && earlier.important && earlier.name == name
      && current.hack != Star && current.hack != Underscore
      && (!current.important || IsHack(current.hack))
    ensures earlierUnused ==> Judge(check, name, earlier, earlierUnused, current) == Skip
    ensures Judge(check, name, earlier, earlierUnused, current) == Skip && !earlierUnused ==>
      || (earlier.important && earlier.name != name)
      || (!earlier.important && IsHack(earlier.hack) != IsHack(current.hack))
      || (earlier.important && (current.hack == Star || current.hack == Underscore))
      || Vetoed(check, name, earlier, current)
  {
  }

  /** How a scan of the candidates ends. */
  datatype ScanResult = Kept(unused: seq<bool>, anyRemoved: bool) | Lost(unused: seq<bool>)

  /**
   * The scan of the candidates `cands` of the declaration at `pos`, from the
   * newest to the oldest; it stops as soon as the current declaration loses.
   */
  function Scan(c: Config, pos: nat, name: string, cands: seq<int>, unused: seq<bool>, anyRemoved: bool): (r: ScanResult)
    requires |unused| == |c.decls| && pos < |c.decls|
    requires forall i :: 0 <= i < |cands| ==> 0 <= cands[i] < pos
    ensures |r.unused| == |unused|
    ensures forall i :: 0 <= i < |unused| && unused[i] ==> r.unused[i]
    ensures forall i :: 0 <= i < |unused| && i !in cands ==> r.unused[i] == unused[i]
    ensures Live(r.unused) <= Live(unused)
    ensures r.Kept? && anyRemoved ==> r.anyRemoved
    ensures r.Kept? && !r.anyRemoved ==> r.unused == unused
    ensures r.Kept? && r.anyRemoved && !anyRemoved ==>
      Live(r.unused) < Live(unused) && exists i :: i in cands && !unused[i] && r.unused[i]
    decreases |cands|
  {
    if cands == [] then Kept(unused, anyRemoved)
    else
      var q := cands[|cands| - 1];
      var older := cands[..|cands| - 1];
      assert forall i :: i in older ==> i in cands;
      match Judge(c.canOverride(name), name, c.decls[q], unused[q], c.decls[pos])
      case Skip => Scan(c, pos, name, older, unused, anyRemoved)
      case DropCurrent => Lost(unused)
      case DropEarlier =>
        LiveMark(unused, q);
        Scan(c, pos, name, older, unused[q := true], true)
  }

  /** One scan step: the verdict on the newest candidate decides how the scan goes on. */
  lemma ScanNewest(c: Config, pos: nat, name: string, cands: seq<int>, unused: seq<bool>, anyRemoved: bool)
    requires |unused| == |c.decls| && pos < |c.decls|
    requires forall i :: 0 <= i < |cands| ==> 0 <= cands[i] < pos
    requires cands != []
    ensures var q := cands[|cands| - 1];
            var older := cands[..|cands| - 1];
            Scan(c, pos, name, cands, unused, anyRemoved) ==
              match Judge(c.canOverride(name), name, c.decls[q], unused[q], c.decls[pos])
              case Skip => Scan(c, pos, name, older, unused, anyRemoved)
              case DropCurrent => Lost(unused)
              case DropEarlier => Scan(c, pos, name, older, unused[q := true], true)
  {
  }

  /** The name the declaration at the current position is tracked under. */
  function EffName(c: Config, s: State): string
    requires s.position < |c.decls|
  {
    EffectiveName(c.decls[s.position].name, s.lastName)
  }

  /**
   * The adjacent-duplicate test: same effective name as the last
   * declaration, same importance and hack as it, that last declaration
   * still live, and the same serialisation as the entry just before.
   */
  predicate IsDuplicate(c: Config, s: State)
    requires Valid(c, s) && s.position < |c.decls|
  {
    var property := c.decls[s.position];
    && s.position > 0
    && s.lastProperty.Some?
    && Some(EffName(c, s)) == s.lastName
    && property.important == c.decls[s.lastProperty.value].important
    && property.hack == c.decls[s.lastProperty.value].hack
    && c.decls[s.position - 1].text == property.text
    && !s.unused[s.lastProperty.value]
  }

  /** Whether the current declaration is scanned against its candidates. */
  predicate Eligible(c: Config, s: State)
    requires s.position < |c.decls|
  {
    var name := EffName(c, s);
    name in s.overrideMapping
    && ((c.aggressiveMerging && Some(name) != s.lastName) || MergeablePosition(c.mergeAdjacent, s.position))
  }

  /**
   * The iteration of a live, non-duplicate, eligible declaration: it loses
   * to a candidate and is marked unused, or it removes candidates and the
   * pass restarts, or it survives and becomes the last declaration.
   */
  function ScanStep(c: Config, s: State): (r: State)
    requires Valid(c, s) && s.position < |c.decls| && !s.unused[s.position] && Eligible(c, s)
    ensures Valid(c, r)
    ensures |r.unused| == |s.unused|
    ensures forall i :: 0 <= i < |s.unused| && s.unused[i] ==> r.unused[i]
    ensures || (r.position == s.position + 1 && Live(r.unused) <= Live(s.unused))
            || (r.position == 0 && Live(r.unused) < Live(s.unused))
  {
    var pos := s.position;
    var name := EffName(c, s);
    BelowRaise(s.overrideMapping, pos, pos + 1);
    assert forall i :: 0 <= i < |s.overrideMapping[name]| ==> 0 <= s.overrideMapping[name][i] < pos;
    match Scan(c, pos, name, s.overrideMapping[name], s.unused, false)
    case Lost(u) =>
      LiveMark(u, pos);
      s.(unused := u[pos := true], lastProperty := Some(pos), position := pos + 1)
    case Kept(u, anyRemoved) =>
      if anyRemoved then Start(u)
      else s.(unused := u, lastName := Some(name), lastProperty := Some(pos), position := pos + 1)
  }

  /**
   * One iteration of the declaration loop. The loop invariant is kept, no
   * flag is ever cleared, and either the position advances without adding
   * a live declaration or the pass restarts with fewer live ones.
   */
  function Step(c: Config, s: State): (r: State)
    requires Valid(c, s) && s.position < |c.decls|
    ensures Valid(c, r)
    ensures |r.unused| == |s.unused|
    ensures forall i :: 0 <= i < |s.unused| && s.unused[i] ==> r.unused[i]
    ensures || (r.position == s.position + 1 && Live(r.unused) <= Live(s.unused))
            || (r.position == 0 && Live(r.unused) < Live(s.unused))
  {
    var pos := s.position;
    var name := EffName(c, s);
    BelowRaise(s.overrideMapping, pos, pos + 1);
    if s.unused[pos] then
      s.(position := pos + 1)
    else if IsDuplicate(c, s) then
      LiveMark(s.unused, pos);
      s.(unused := s.unused[pos := true], position := pos + 1)
    else if Eligible(c, s) then
      ScanStep(c, s)
    else
      s.(overrideMapping := Register(s.overrideMapping, name, pos),
         lastName := Some(name), lastProperty := Some(pos), position := pos + 1)
  }

  /** An already-unused declaration is passed over and stays unused. */
  lemma StepSkipsUnused(c: Config, s: State)
    requires Valid(c, s) && s.position < |c.decls| && s.unused[s.position]
    ensures Step(c, s) == s.(position := s.position + 1)
  {
  }

  /** An adjacent duplicate is marked unused, whatever the merge policy. */
  lemma StepCollapsesDuplicate(c: Config, s: State)
    requires Valid(c, s) && s.position < |c.decls| && !s.unused[s.position] && IsDuplicate(c, s)
    ensures Step(c, s) == s.(unused := s.unused[s.position := true], position := s.position + 1)
  {
  }

  /**
   * When an earlier important candidate wins, the current declaration is
   * marked unused and becomes the last property, while the last name and
   * the mapping stay as they were.
   */
  lemma StepCurrentLoses(c: Config, s: State)
    requires Valid(c, s) && s.position < |c.decls| && !s.unused[s.position]
    requires !IsDuplicate(c, s) && Eligible(c, s)
    requires Scan(c, s.position, EffName(c, s), s.overrideMapping[EffName(c, s)], s.unused, false).Lost?
    ensures var u := Scan(c, s.position, EffName(c, s), s.overrideMapping[EffName(c, s)], s.unused, false).unused;
      Step(c, s) == s.(unused := u[s.position := true], lastProperty := Some(s.position), position := s.position + 1)
  {
  }

  /**
   * When the scan removed an earlier declaration, the pass restarts from
   * the first position with an empty mapping and no last declaration.
   */
  lemma StepRestarts(c: Config, s: State)
    requires Valid(c, s) && s.position < |c.decls| && !s.unused[s.position]
    requires !IsDuplicate(c, s) && Eligible(c, s)
    requires var r := Scan(c, s.position, EffName(c, s), s.overrideMapping[EffName(c, s)], s.unused, false);
      r.Kept? && r.anyRemoved
    ensures Step(c, s) == Start(Scan(c, s.position, EffName(c, s), s.overrideMapping[EffName(c, s)], s.unused, false).unused)
  {
  }

  /**
   * When the scan removed nothing and the current declaration survived,
   * the flags stay as they were and the declaration is not registered.
   */
  lemma StepSurvivesScan(c: Config, s: State)
    requires Valid(c, s) && s.position < |c.decls| && !s.unused[s.position]
    requires !IsDuplicate(c, s) && Eligible(c, s)
    requires var r := Scan(c, s.position, EffName(c, s), s.overrideMapping[EffName(c, s)], s.unused, false);
      r.Kept? && !r.anyRemoved
    ensures Step(c, s) == s.(lastName := Some(EffName(c, s)), lastProperty := Some(s.position), position := s.position + 1)
  {
  }

  /** A declaration that is not scanned is registered and changes no flag. */
  lemma StepRegisters(c: Config, s: State)
    requires Valid(c, s) && s.position < |c.decls| && !s.unused[s.position]
    requires !IsDuplicate(c, s) && !Eligible(c, s)
    ensures Step(c, s) == s.(overrideMapping := Register(s.overrideMapping, EffName(c, s), s.position),
                             lastName := Some(EffName(c, s)), lastProperty := Some(s.position),
                             position := s.position + 1)
  {
  }

  /** The rest of the pass from `s`, restarts included: the final flags. */
  function Run(c: Config, s: State): (r: seq<bool>)
    requires Valid(c, s)
    ensures |r| == |s.unused|
    ensures forall i :: 0 <= i < |r| && s.unused[i] ==> r[i]
    decreases Live(s.unused), |c.decls| - s.position
  {
    if s.position == |c.decls| then s.unused else Run(c, Step(c, s))
  }

  /** The pass from `s` ends where the pass from its successor ends. */
  lemma RunStep(c: Config, s: State)
    requires Valid(c, s) && s.position < |c.decls|
    ensures Run(c, s) == Run(c, Step(c, s))
  {
  }

  /** The flags the resolver leaves, starting from `unused`. */
  function Resolve(c: Config, unused: seq<bool>): (r: seq<bool>)
    requires |unused| == |c.decls|
    ensures |r| == |unused|
    ensures forall i :: 0 <= i < |r| && unused[i] ==> r[i]
  {
    Run(c, Start(unused))
  }
}
