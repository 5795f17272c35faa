/**
 * What the resolver promises, proved about its specification: which
 * earlier declarations survive a later one, when the later one loses, that
 * duplicates collapse, how registration records positions, and that a
 * restart follows only a removal.
 */
module Properties {
  import opened Wrappers
  import opened Declarations
  import opened Resolution
  import Shorthands

  // ---------------------------------------------------------------------
  // Scan-level facts, by induction over the candidates (newest first)
  // ---------------------------------------------------------------------

  /** A candidate whose verdict is not `DropEarlier` leaves the scan live. */
  lemma {:induction false} ScanSpares(c: Config, pos: nat, name: string, cands: seq<int>, unused: seq<bool>, anyRemoved: bool, i: int)
    requires |unused| == |c.decls| && pos < |c.decls|
    requires forall k :: 0 <= k < |cands| ==> 0 <= cands[k] < pos
    requires 0 <= i < |unused| && !unused[i]
    requires Judge(c.canOverride(name), name, c.decls[i], false, c.decls[pos]) != DropEarlier
    ensures !Scan(c, pos, name, cands, unused, anyRemoved).unused[i]
    decreases |cands|
  {
    if cands != [] {
      var q := cands[|cands| - 1];
      var older := cands[..|cands| - 1];
      assert forall k :: 0 <= k < |older| ==> older[k] == cands[k];
      ScanNewest(c, pos, name, cands, unused, anyRemoved);
      match Judge(c.canOverride(name), name, c.decls[q], unused[q], c.decls[pos])
      case Skip =>
        ScanSpares(c, pos, name, older, unused, anyRemoved, i);
      case DropCurrent =>
      case DropEarlier =>
        assert q != i;
        ScanSpares(c, pos, name, older, unused[q := true], true, i);
    }
  }

  /**
   * A scan that drops the current declaration does so for an earlier
   * candidate that is live and important and that the current one does
   * not override.
   */
  lemma {:induction false} ScanLostWitness(c: Config, pos: nat, name: string, cands: seq<int>, unused: seq<bool>, anyRemoved: bool)
    requires |unused| == |c.decls| && pos < |c.decls|
    requires forall k :: 0 <= k < |cands| ==> 0 <= cands[k] < pos
    ensures var r := Scan(c, pos, name, cands, unused, anyRemoved);
      r.Lost? ==> (exists q :: q in cands && !unused[q] && !r.unused[q]
                     && Judge(c.canOverride(name), name, c.decls[q], false, c.decls[pos]) == DropCurrent)
    decreases |cands|
  {
    if cands != [] {
      var q := cands[|cands| - 1];
      var older := cands[..|cands| - 1];
      assert forall k :: 0 <= k < |older| ==> older[k] == cands[k];
      assert forall k :: k in older ==> k in cands;
      ScanNewest(c, pos, name, cands, unused, anyRemoved);
      match Judge(c.canOverride(name), name, c.decls[q], unused[q], c.decls[pos])
      case Skip =>
        ScanLostWitness(c, pos, name, older, unused, anyRemoved);
      case DropCurrent =>
        assert q in cands;
      case DropEarlier =>
        ScanLostWitness(c, pos, name, older, unused[q := true], true);
    }
  }

  /**
   * When every candidate newer than `cands[k]` is skipped and `cands[k]`
   * beats the current declaration, the scan ends there with the flags
   * untouched.
   */
  lemma {:induction false} ScanReachesWinner(c: Config, pos: nat, name: string, cands: seq<int>, unused: seq<bool>, anyRemoved: bool, k: int)
    requires |unused| == |c.decls| && pos < |c.decls|
    requires forall j :: 0 <= j < |cands| ==> 0 <= cands[j] < pos
    requires 0 <= k < |cands|
    requires forall j :: k < j < |cands| ==>
      Judge(c.canOverride(name), name, c.decls[cands[j]], unused[cands[j]], c.decls[pos]) == Skip
    requires Judge(c.canOverride(name), name, c.decls[cands[k]], unused[cands[k]], c.decls[pos]) == DropCurrent
    ensures Scan(c, pos, name, cands, unused, anyRemoved) == Lost(unused)
    decreases |cands|
  {
    ScanNewest(c, pos, name, cands, unused, anyRemoved);
    if k < |cands| - 1 {
      var older := cands[..|cands| - 1];
      assert forall j :: 0 <= j < |older| ==> older[j] == cands[j];
      ScanReachesWinner(c, pos, name, older, unused, anyRemoved, k);
    }
  }

  /** With no live candidate that beats the current declaration, the scan keeps it. */
  lemma {:induction false} ScanKeptWithoutWinner(c: Config, pos: nat, name: string, cands: seq<int>, unused: seq<bool>, anyRemoved: bool)
    requires |unused| == |c.decls| && pos < |c.decls|
    requires forall k :: 0 <= k < |cands| ==> 0 <= cands[k] < pos
    requires forall k :: k in cands && !unused[k] ==>
      Judge(c.canOverride(name), name, c.decls[k], false, c.decls[pos]) != DropCurrent
    ensures Scan(c, pos, name, cands, unused, anyRemoved).Kept?
    decreases |cands|
  {
    if cands != [] {
      var q := cands[|cands| - 1];
      var older := cands[..|cands| - 1];
      assert forall k :: 0 <= k < |older| ==> older[k] == cands[k];
      assert forall k :: k in older ==> k in cands;
      ScanNewest(c, pos, name, cands, unused, anyRemoved);
      if Judge(c.canOverride(name), name, c.decls[q], unused[q], c.decls[pos]) == Skip {
        ScanKeptWithoutWinner(c, pos, name, older, unused, anyRemoved);
      } else {
        assert q in cands;
        ScanKeptWithoutWinner(c, pos, name, older, unused[q := true], true);
      }
    }
  }

  /**
   * With no live candidate that beats the current declaration, every live
   * candidate it overrides is marked unused and the scan reports a removal.
   */
  lemma {:induction false} ScanRemovesOverridable(c: Config, pos: nat, name: string, cands: seq<int>, unused: seq<bool>, anyRemoved: bool, q: int)
    requires |unused| == |c.decls| && pos < |c.decls|
    requires forall k :: 0 <= k < |cands| ==> 0 <= cands[k] < pos
    requires forall k :: k in cands && !unused[k] ==>
      Judge(c.canOverride(name), name, c.decls[k], false, c.decls[pos]) != DropCurrent
    requires q in cands && !unused[q]
    requires Judge(c.canOverride(name), name, c.decls[q], false, c.decls[pos]) == DropEarlier
    ensures var r := Scan(c, pos, name, cands, unused, anyRemoved); r.Kept? && r.anyRemoved && r.unused[q]
    decreases |cands|
  {
    var last := cands[|cands| - 1];
    var older := cands[..|cands| - 1];
    assert forall k :: 0 <= k < |older| ==> older[k] == cands[k];
    assert forall k :: k in older ==> k in cands;
    ScanNewest(c, pos, name, cands, unused, anyRemoved);
    if last == q {
      ScanKeptWithoutWinner(c, pos, name, older, unused[q := true], true);
    } else if Judge(c.canOverride(name), name, c.decls[last], unused[last], c.decls[pos]) == Skip {
      assert q in older;
      ScanRemovesOverridable(c, pos, name, older, unused, anyRemoved, q);
    } else {
      assert q in older && last in cands;
      ScanRemovesOverridable(c, pos, name, older, unused[last := true], true, q);
    }
  }

  /**
   * A live candidate that beats the current declaration ends the scan with
   * a loss, whatever newer candidates were removed before it, and it stays
   * live.
   */
  lemma {:induction false} ScanLosesToLiveWinner(c: Config, pos: nat, name: string, cands: seq<int>, unused: seq<bool>, anyRemoved: bool, q: int)
    requires |unused| == |c.decls| && pos < |c.decls|
    requires forall k :: 0 <= k < |cands| ==> 0 <= cands[k] < pos
    requires q in cands && !unused[q]
    requires Judge(c.canOverride(name), name, c.decls[q], false, c.decls[pos]) == DropCurrent
    ensures var r := Scan(c, pos, name, cands, unused, anyRemoved); r.Lost? && !r.unused[q]
    decreases |cands|
  {
    var last := cands[|cands| - 1];
    var older := cands[..|cands| - 1];
    assert forall k :: 0 <= k < |older| ==> older[k] == cands[k];
    ScanNewest(c, pos, name, cands, unused, anyRemoved);
    var v := Judge(c.canOverride(name), name, c.decls[last], unused[last], c.decls[pos]);
    if last != q && v == Skip {
      assert q in older;
      ScanLosesToLiveWinner(c, pos, name, older, unused, anyRemoved, q);
    } else if last != q && v == DropEarlier {
      assert q in older;
      ScanLosesToLiveWinner(c, pos, name, older, unused[last := true], true, q);
    }
  }

  // ---------------------------------------------------------------------
  // Which earlier declarations survive one iteration
  // ---------------------------------------------------------------------

  /** An earlier declaration whose verdict is not `DropEarlier` stays live. */
  lemma StepSpares(c: Config, s: State, i: int)
    requires Valid(c, s) && s.position < |c.decls|
    requires 0 <= i < |c.decls| && i != s.position && !s.unused[i]
    requires Judge(c.canOverride(EffName(c, s)), EffName(c, s), c.decls[i], false, c.decls[s.position]) != DropEarlier
    ensures !Step(c, s).unused[i]
  {
    if !s.unused[s.position] && !IsDuplicate(c, s) && Eligible(c, s) {
      var name := EffName(c, s);
      ScanSpares(c, s.position, name, s.overrideMapping[name], s.unused, false, i);
    }
  }

  /** A shorthand never erases an important declaration of another name. */
  lemma ShorthandKeepsImportantLonghand(c: Config, s: State, i: int)
    requires Valid(c, s) && s.position < |c.decls|
    requires 0 <= i < |c.decls| && i != s.position && !s.unused[i]
    requires c.decls[i].important && c.decls[i].name != EffName(c, s)
    ensures !Step(c, s).unused[i]
  {
    StepSpares(c, s, i);
  }

  /**
   * A non-important declaration is never overridden by one that differs
   * from it in having a hack.
   */
  lemma HackMismatchKeepsEarlier(c: Config, s: State, i: int)
    requires Valid(c, s) && s.position < |c.decls|
    requires 0 <= i < |c.decls| && i != s.position && !s.unused[i]
    requires !c.decls[i].important && IsHack(c.decls[i].hack) != IsHack(c.decls[s.position].hack)
    ensures !Step(c, s).unused[i]
  {
    StepSpares(c, s, i);
  }

  /** A star or underscore hack never overrides an important declaration. */
  lemma StarUnderscoreKeepsImportant(c: Config, s: State, i: int)
    requires Valid(c, s) && s.position < |c.decls|
    requires 0 <= i < |c.decls| && i != s.position && !s.unused[i]
    requires c.decls[i].important
    requires c.decls[s.position].hack == Star || c.decls[s.position].hack == Underscore
    ensures !Step(c, s).unused[i]
  {
    StepSpares(c, s, i);
  }

  /**
   * Between unhacked declarations of the same name, one the property's
   * `canOverride` check rejects is never overridden.
   */
  lemma VetoKeepsEarlier(c: Config, s: State, i: int, check: OverrideCheck)
    requires Valid(c, s) && s.position < |c.decls|
    requires 0 <= i < |c.decls| && i != s.position && !s.unused[i]
    requires c.decls[i].hack == NoHack && c.decls[s.position].hack == NoHack
    requires c.decls[i].name == EffName(c, s)
    requires c.canOverride(EffName(c, s)) == Some(check) && !check(c.decls[i], c.decls[s.position])
    ensures !Step(c, s).unused[i]
  {
    StepSpares(c, s, i);
  }

  /**
   * An important declaration is never overridden by a later one that is
   * not important or carries a hack.
   */
  lemma ImportantNeverLosesToWeaker(c: Config, s: State, i: int)
    requires Valid(c, s) && s.position < |c.decls|
    requires 0 <= i < |c.decls| && i != s.position && !s.unused[i]
    requires c.decls[i].important
    requires !c.decls[s.position].important || IsHack(c.decls[s.position].hack)
    ensures !Step(c, s).unused[i]
  {
    StepSpares(c, s, i);
  }

  /**
   * Only a scan removes earlier declarations: a removed declaration was a
   * candidate recorded under the effective name of the current one, and the
   * current one was live, no duplicate, and eligible for merging.
   */
  lemma OnlyScanRemovesEarlier(c: Config, s: State, i: int)
    requires Valid(c, s) && s.position < |c.decls|
    requires 0 <= i < |c.decls| && i != s.position && !s.unused[i] && Step(c, s).unused[i]
    ensures !s.unused[s.position] && !IsDuplicate(c, s) && Eligible(c, s)
    ensures i in s.overrideMapping[EffName(c, s)]
  {
    if s.unused[s.position] {
      StepSkipsUnused(c, s);
    } else if IsDuplicate(c, s) {
      StepCollapsesDuplicate(c, s);
    } else if !Eligible(c, s) {
      StepRegisters(c, s);
    }
  }

  // ---------------------------------------------------------------------
  // When the current declaration loses
  // ---------------------------------------------------------------------

  /**
   * The current declaration is marked unused only as an adjacent duplicate
   * or because a live, unvetoed, important candidate recorded under its
   * effective name, which stays live, beats it.
   */
  lemma CurrentLosesOnlyToDuplicateOrImportant(c: Config, s: State)
    requires Valid(c, s) && s.position < |c.decls|
    requires !s.unused[s.position] && Step(c, s).unused[s.position]
    ensures || IsDuplicate(c, s)
            || (&& EffName(c, s) in s.overrideMapping
                && exists q :: q in s.overrideMapping[EffName(c, s)] && 0 <= q < s.position
                     && !s.unused[q] && !Step(c, s).unused[q]
                     && Judge(c.canOverride(EffName(c, s)), EffName(c, s), c.decls[q], false, c.decls[s.position]) == DropCurrent
                     && !Vetoed(c.canOverride(EffName(c, s)), EffName(c, s), c.decls[q], c.decls[s.position])
                     && c.decls[q].important && c.decls[q].name == EffName(c, s)
                     && c.decls[s.position].hack != Star && c.decls[s.position].hack != Underscore
                     && (!c.decls[s.position].important || c.decls[s.position].hack.OtherHack?))
  {
    var pos := s.position;
    if !IsDuplicate(c, s) {
      if !Eligible(c, s) {
        StepRegisters(c, s);
      } else {
        var name := EffName(c, s);
        var cands := s.overrideMapping[name];
        var r := Scan(c, pos, name, cands, s.unused, false);
        if r.Lost? {
          StepCurrentLoses(c, s);
          ScanLostWitness(c, pos, name, cands, s.unused, false);
          var q :| q in cands && !s.unused[q] && !r.unused[q]
            && Judge(c.canOverride(name), name, c.decls[q], false, c.decls[pos]) == DropCurrent;
          assert q < pos;
          assert !Step(c, s).unused[q];
        }
      }
    }
  }

  /**
   * `!important` precedence: when every newer candidate is skipped and the
   * candidate `cands[k]` is a live important declaration of the same name
   * that the current one (not important, or with a hack other than star or
   * underscore) cannot beat, and the `canOverride` check does not veto the
   * pair, the current one is marked unused, the earlier
   * one stays live, and only the last property moves on.
   */
  lemma ImportantEarlierWins(c: Config, s: State, k: int)
    requires Valid(c, s) && s.position < |c.decls| && !s.unused[s.position]
    requires !IsDuplicate(c, s) && Eligible(c, s)
    requires var cands := s.overrideMapping[EffName(c, s)];
      && 0 <= k < |cands|
      && (forall j :: k < j < |cands| ==>
            Judge(c.canOverride(EffName(c, s)), EffName(c, s), c.decls[cands[j]], s.unused[cands[j]], c.decls[s.position]) == Skip)
    requires var q := s.overrideMapping[EffName(c, s)][k];
      && !s.unused[q]
      && c.decls[q].important && c.decls[q].name == EffName(c, s)
      && c.decls[s.position].hack != Star && c.decls[s.position].hack != Underscore
      && (!c.decls[s.position].important || c.decls[s.position].hack.OtherHack?)
      && !Vetoed(c.canOverride(EffName(c, s)), EffName(c, s), c.decls[q], c.decls[s.position])
    ensures Step(c, s) == s.(unused := s.unused[s.position := true], lastProperty := Some(s.position), position := s.position + 1)
    ensures !Step(c, s).unused[s.overrideMapping[EffName(c, s)][k]]
  {
    var name := EffName(c, s);
    var cands := s.overrideMapping[name];
    var q := cands[k];
    assert q < s.position;
    ScanReachesWinner(c, s.position, name, cands, s.unused, false, k);
    StepCurrentLoses(c, s);
  }

  /**
   * `!important` precedence in general: a live, unvetoed, important
   * candidate of the same name beats a current declaration that is not
   * important or has a hack other than star or underscore, whatever the
   * newer candidates did. The current one is marked unused, the winner
   * stays live, the current one becomes the last property, and the last
   * name and the mapping stay as they were.
   */
  lemma ImportantCandidateWins(c: Config, s: State, q: int)
    requires Valid(c, s) && s.position < |c.decls| && !s.unused[s.position]
    requires !IsDuplicate(c, s) && Eligible(c, s)
    requires q in s.overrideMapping[EffName(c, s)] && !s.unused[q]
    requires c.decls[q].important && c.decls[q].name == EffName(c, s)
    requires c.decls[s.position].hack != Star && c.decls[s.position].hack != Underscore
    requires !c.decls[s.position].important || IsHack(c.decls[s.position].hack)
    requires !Vetoed(c.canOverride(EffName(c, s)), EffName(c, s), c.decls[q], c.decls[s.position])
    ensures Step(c, s).unused[s.position] && !Step(c, s).unused[q]
    ensures Step(c, s).overrideMapping == s.overrideMapping && Step(c, s).lastName == s.lastName
    ensures Step(c, s).lastProperty == Some(s.position) && Step(c, s).position == s.position + 1
  {
    var name := EffName(c, s);
    var cands := s.overrideMapping[name];
    assert forall i :: 0 <= i < |cands| ==> 0 <= cands[i] < s.position;
    assert q < s.position;
    ScanLosesToLiveWinner(c, s.position, name, cands, s.unused, false, q);
    StepCurrentLoses(c, s);
  }

  /**
   * The resolver's main action: when no live candidate beats the current
   * declaration, a live candidate it overrides is marked unused, the
   * current one stays live, the pass restarts, and the candidate is still
   * unused when the pass ends.
   */
  lemma OverridableCandidateRemoved(c: Config, s: State, q: int)
    requires Valid(c, s) && s.position < |c.decls| && !s.unused[s.position]
    requires !IsDuplicate(c, s) && Eligible(c, s)
    requires forall k :: k in s.overrideMapping[EffName(c, s)] && !s.unused[k] ==>
      Judge(c.canOverride(EffName(c, s)), EffName(c, s), c.decls[k], false, c.decls[s.position]) != DropCurrent
    requires q in s.overrideMapping[EffName(c, s)] && !s.unused[q]
    requires Judge(c.canOverride(EffName(c, s)), EffName(c, s), c.decls[q], false, c.decls[s.position]) == DropEarlier
    ensures Step(c, s) == Start(Step(c, s).unused)
    ensures Step(c, s).unused[q] && !Step(c, s).unused[s.position]
    ensures Run(c, s)[q]
  {
    var name := EffName(c, s);
    var cands := s.overrideMapping[name];
    assert forall i :: 0 <= i < |cands| ==> 0 <= cands[i] < s.position;
    assert s.position !in cands;
    ScanRemovesOverridable(c, s.position, name, cands, s.unused, false, q);
    StepRestarts(c, s);
    RunStep(c, s);
  }

  // ---------------------------------------------------------------------
  // Duplicates, restarts, the whole pass
  // ---------------------------------------------------------------------

  /** An adjacent duplicate is unused when the pass ends, whatever the policy. */
  lemma DuplicateEndsUnused(c: Config, s: State)
    requires Valid(c, s) && s.position < |c.decls| && !s.unused[s.position] && IsDuplicate(c, s)
    ensures Run(c, s)[s.position]
  {
    StepCollapsesDuplicate(c, s);
    RunStep(c, s);
  }

  /**
   * A restart follows only the removal of some earlier live declaration,
   * and it empties the mapping and forgets the last declaration.
   */
  lemma RestartOnlyAfterRemoval(c: Config, s: State)
    requires Valid(c, s) && s.position < |c.decls|
    requires Step(c, s).position == 0
    ensures Step(c, s) == Start(Step(c, s).unused)
    ensures exists i :: 0 <= i < s.position && !s.unused[i] && Step(c, s).unused[i]
  {
    var pos := s.position;
    var name := EffName(c, s);
    assert !s.unused[pos] && !IsDuplicate(c, s) && Eligible(c, s);
    var cands := s.overrideMapping[name];
    var r := Scan(c, pos, name, cands, s.unused, false);
    assert r.Kept? && r.anyRemoved;
    StepRestarts(c, s);
    var i :| i in cands && !s.unused[i] && r.unused[i];
    assert 0 <= i < pos;
  }

  /**
   * At the start of a pass a live first declaration is always registered:
   * under its own name and under each of its shorthand groups.
   */
  lemma FirstIsRegistered(c: Config, unused: seq<bool>)
    requires |unused| == |c.decls| > 0 && !unused[0]
    ensures var r := Step(c, Start(unused)); var name := EffectiveName(c.decls[0].name, None);
      && r.position == 1 && r.unused == unused
      && r.lastName == Some(name) && r.lastProperty == Some(0)
      && name in r.overrideMapping && r.overrideMapping[name] == [0]
      && forall k :: k in Shorthands.Of(name) ==> k in r.overrideMapping && r.overrideMapping[k] == [0]
  {
    StepRegisters(c, Start(unused));
    RegisterAppends(map[], EffectiveName(c.decls[0].name, None), 0);
  }

  /** Flags only rise: whatever was unused before the pass is unused after it. */
  lemma ResolveOnlyMarks(c: Config, unused: seq<bool>, i: int)
    requires |unused| == |c.decls| && 0 <= i < |unused| && unused[i]
    ensures Resolve(c, unused)[i]
  {
  }

  // ---------------------------------------------------------------------
  // Registration
  // ---------------------------------------------------------------------

  lemma {:induction false} PushAllAppends(m: map<string, seq<int>>, keys: seq<string>, p: int)
    requires forall i, j :: 0 <= i < j < |keys| ==> keys[i] != keys[j]
    ensures forall k :: k in keys ==> k in PushAll(m, keys, p) && PushAll(m, keys, p)[k] == Candidates(m, k) + [p]
    ensures forall k :: k !in keys ==> Candidates(PushAll(m, keys, p), k) == Candidates(m, k)
    ensures forall k :: k !in keys ==> (k in PushAll(m, keys, p) <==> k in m)
    decreases |keys|
  {
    if keys != [] {
      var last := keys[|keys| - 1];
      var older := keys[..|keys| - 1];
      assert last !in older;
      assert forall k :: k in keys <==> k in older || k == last;
      PushAllAppends(Push(m, last, p), older, p);
    }
  }

  /**
   * Registration appends the position exactly under the effective name and
   * under each of its shorthand groups, and leaves every other entry alone.
   */
  lemma RegisterAppends(m: map<string, seq<int>>, name: string, p: int)
    ensures forall k :: (k == name || k in Shorthands.Of(name)) ==>
      k in Register(m, name, p) && Register(m, name, p)[k] == Candidates(m, k) + [p]
    ensures forall k :: k != name && k !in Shorthands.Of(name) ==>
      (k in Register(m, name, p) <==> k in m) && Candidates(Register(m, name, p), k) == Candidates(m, k)
  {
    Shorthands.GroupsAreDistinct(name);
    PushAllAppends(Push(m, name, p), Shorthands.Of(name), p);
  }

  /**
   * A registered border longhand or edge shorthand becomes the newest
   * candidate of `border`, so a later `border` declaration scans it first.
   */
  lemma RegisteredUnderBorder(m: map<string, seq<int>>, name: string, p: int)
    requires name in Shorthands.Table
    ensures "border" in Register(m, name, p)
    ensures var b := Register(m, name, p)["border"]; |b| > 0 && b[|b| - 1] == p
  {
    Shorthands.GroupsEndWithBorder(name);
    RegisterAppends(m, name, p);
    assert "border" in Shorthands.Of(name);
  }

  /**
   * Registration reaches every shorthand above the name: whatever covers
   * one of its groups gets the position as its newest candidate too.
   */
  lemma RegisteredUnderCovering(m: map<string, seq<int>>, name: string, group: string, p: int)
    requires group in Shorthands.Of(name)
    ensures forall g :: g in Shorthands.Of(group) ==>
      g in Register(m, name, p) && Register(m, name, p)[g] == Candidates(m, g) + [p]
  {
    Shorthands.GroupsAreClosed(name, group);
    RegisterAppends(m, name, p);
  }
}
