/**
 * Whole passes of the resolver over small blocks, computed step by step.
 * In each, `text` stands for the serialised declaration.
 */
module Scenarios {
  import opened Wrappers
  import opened Declarations
  import opened Resolution
  import Properties

  /** A registry without any `canOverride` check. */
  function NoChecks(name: string): Option<OverrideCheck> {
    None
  }

  /** `color:red; color:blue` with merging always allowed. */
  function ColorPair(): Config {
    Config([Decl("color", false, NoHack, "color:red"), Decl("color", false, NoHack, "color:blue")],
           Always, false, NoChecks)
  }

  /** Position 1 overrides position 0, and the pass restarts. */
  lemma ColorPairSecond(s: State)
    requires Valid(ColorPair(), s) && s.position == 1 && s.unused == [false, false]
    requires s.lastName == Some("color") && s.lastProperty == Some(0)
    requires "color" in s.overrideMapping && s.overrideMapping["color"] == [0]
    ensures Step(ColorPair(), s) == Start([true, false])
  {
    var c := ColorPair();
    assert EffName(c, s) == "color";
    assert !IsDuplicate(c, s);
    ScanNewest(c, 1, "color", [0], [false, false], false);
    assert Scan(c, 1, "color", [0], [false, false], false) == Kept([true, false], true);
    StepRestarts(c, s);
  }

  /** After the restart, position 0 is skipped and position 1 is registered. */
  lemma ColorPairRestarted()
    ensures Run(ColorPair(), Start([true, false])) == [true, false]
  {
    var c := ColorPair();
    var s := Start([true, false]);
    StepSkipsUnused(c, s);
    RunStep(c, s);
    var t := s.(position := 1);
    assert EffName(c, t) == "color";
    StepRegisters(c, t);
    RunStep(c, t);
  }

  /** `color:red; color:blue` with merging always allowed: the first is overridden. */
  lemma LaterColorOverrides()
    ensures Resolve(ColorPair(), [false, false]) == [true, false]
  {
    var c := ColorPair();
    var s0 := Start([false, false]);
    RunStep(c, s0);
    Properties.FirstIsRegistered(c, [false, false]);
    var s1 := Step(c, s0);
    RunStep(c, s1);
    ColorPairSecond(s1);
    ColorPairRestarted();
  }

  /** `border-bottom-color:red!important; border:1px solid blue` with merging always allowed. */
  function BorderPair(): Config {
    Config([Decl("border-bottom-color", true, NoHack, "border-bottom-color:red!important"),
            Decl("border", false, NoHack, "border:1px solid blue")],
           Always, false, NoChecks)
  }

  /** The longhand at position 0 is registered under `border` as well. */
  lemma BorderPairFirst()
    ensures var r := Step(BorderPair(), Start([false, false]));
      && r.position == 1 && r.unused == [false, false]
      && r.lastName == Some("border-bottom-color") && r.lastProperty == Some(0)
      && "border" in r.overrideMapping && r.overrideMapping["border"] == [0]
  {
    assert EffectiveName("border-bottom-color", None) == "border-bottom-color";
    assert "border" in Shorthands.Of("border-bottom-color") by {
      assert Shorthands.Of("border-bottom-color") == ["border-bottom", "border-color", "border"];
    }
    Properties.FirstIsRegistered(BorderPair(), [false, false]);
  }

  /** The `border` declaration skips the important longhand registered under `border`. */
  lemma BorderPairSecond(s: State)
    requires Valid(BorderPair(), s) && s.position == 1 && s.unused == [false, false]
    requires s.lastName == Some("border-bottom-color") && s.lastProperty == Some(0)
    requires "border" in s.overrideMapping && s.overrideMapping["border"] == [0]
    ensures Step(BorderPair(), s).position == 2 && Step(BorderPair(), s).unused == [false, false]
  {
    var c := BorderPair();
    assert EffName(c, s) == "border";
    assert !IsDuplicate(c, s);
    ScanNewest(c, 1, "border", [0], [false, false], false);
    assert Scan(c, 1, "border", [0], [false, false], false) == Kept([false, false], false);
    StepSurvivesScan(c, s);
  }

  /** An important edge colour survives a later full `border` shorthand. */
  lemma ImportantLonghandSurvivesBorder()
    ensures Resolve(BorderPair(), [false, false]) == [false, false]
  {
    var c := BorderPair();
    var s0 := Start([false, false]);
    RunStep(c, s0);
    BorderPairFirst();
    var s1 := Step(c, s0);
    RunStep(c, s1);
    BorderPairSecond(s1);
  }

  /** `border-bottom-color:red; border:1px solid blue` with merging always allowed. */
  function LonghandThenBorder(): Config {
    Config([Decl("border-bottom-color", false, NoHack, "border-bottom-color:red"),
            Decl("border", false, NoHack, "border:1px solid blue")],
           Always, false, NoChecks)
  }

  /** The longhand at position 0 is registered under `border` as well. */
  lemma LonghandThenBorderFirst()
    ensures var r := Step(LonghandThenBorder(), Start([false, false]));
      && r.position == 1 && r.unused == [false, false]
      && r.lastName == Some("border-bottom-color") && r.lastProperty == Some(0)
      && "border" in r.overrideMapping && r.overrideMapping["border"] == [0]
  {
    assert EffectiveName("border-bottom-color", None) == "border-bottom-color";
    assert "border" in Shorthands.Of("border-bottom-color") by {
      assert Shorthands.Of("border-bottom-color") == ["border-bottom", "border-color", "border"];
    }
    Properties.FirstIsRegistered(LonghandThenBorder(), [false, false]);
  }

  /** The `border` shorthand overrides the plain longhand, and the pass restarts. */
  lemma LonghandThenBorderSecond(s: State)
    requires Valid(LonghandThenBorder(), s) && s.position == 1 && s.unused == [false, false]
    requires s.lastName == Some("border-bottom-color") && s.lastProperty == Some(0)
    requires "border" in s.overrideMapping && s.overrideMapping["border"] == [0]
    ensures Step(LonghandThenBorder(), s) == Start([true, false])
  {
    var c := LonghandThenBorder();
    assert EffName(c, s) == "border";
    assert !IsDuplicate(c, s);
    assert Judge(None, "border", c.decls[0], false, c.decls[1]) == DropEarlier;
    Properties.OverridableCandidateRemoved(c, s, 0);
    assert Step(c, s).unused == [true, false];
  }

  /** After the restart, the longhand is skipped and `border` is registered. */
  lemma LonghandThenBorderRestarted()
    ensures Run(LonghandThenBorder(), Start([true, false])) == [true, false]
  {
    var c := LonghandThenBorder();
    var s := Start([true, false]);
    StepSkipsUnused(c, s);
    RunStep(c, s);
    var t := s.(position := 1);
    assert EffName(c, t) == "border";
    StepRegisters(c, t);
    RunStep(c, t);
  }

  /** A later full `border` shorthand makes a plain edge colour unused. */
  lemma BorderOverridesLonghand()
    ensures Resolve(LonghandThenBorder(), [false, false]) == [true, false]
  {
    var c := LonghandThenBorder();
    var s0 := Start([false, false]);
    RunStep(c, s0);
    LonghandThenBorderFirst();
    var s1 := Step(c, s0);
    RunStep(c, s1);
    LonghandThenBorderSecond(s1);
    LonghandThenBorderRestarted();
  }

  /** `color:red; margin:0; color:blue` with merging always allowed. */
  function ColorMarginColor(): Config {
    Config([Decl("color", false, NoHack, "color:red"), Decl("margin", false, NoHack, "margin:0"),
            Decl("color", false, NoHack, "color:blue")],
           Always, false, NoChecks)
  }

  /** `margin` is registered under its own name only. */
  lemma ColorMarginColorSecond(s: State)
    requires Valid(ColorMarginColor(), s) && s.position == 1 && s.unused == [false, false, false]
    requires s.lastName == Some("color") && s.lastProperty == Some(0)
    requires "color" in s.overrideMapping && s.overrideMapping["color"] == [0]
    requires "margin" !in s.overrideMapping
    ensures var r := Step(ColorMarginColor(), s);
      && r.position == 2 && r.unused == [false, false, false]
      && r.lastName == Some("margin") && r.lastProperty == Some(1)
      && "color" in r.overrideMapping && r.overrideMapping["color"] == [0]
  {
    var c := ColorMarginColor();
    assert EffName(c, s) == "margin";
    assert !IsDuplicate(c, s);
    assert Shorthands.Of("margin") == [];
    StepRegisters(c, s);
    Properties.RegisterAppends(s.overrideMapping, "margin", 1);
  }

  /** The second `color` overrides the first, and the pass restarts. */
  lemma ColorMarginColorThird(s: State)
    requires Valid(ColorMarginColor(), s) && s.position == 2 && s.unused == [false, false, false]
    requires s.lastName == Some("margin") && s.lastProperty == Some(1)
    requires "color" in s.overrideMapping && s.overrideMapping["color"] == [0]
    ensures Step(ColorMarginColor(), s) == Start([true, false, false])
  {
    var c := ColorMarginColor();
    assert EffName(c, s) == "color";
    assert !IsDuplicate(c, s);
    ScanNewest(c, 2, "color", [0], [false, false, false], false);
    assert Scan(c, 2, "color", [0], [false, false, false], false) == Kept([true, false, false], true);
    StepRestarts(c, s);
  }

  /** After the restart the first declaration is skipped and `margin` is registered. */
  lemma ColorMarginColorRestarted()
    ensures var r := Step(ColorMarginColor(), Step(ColorMarginColor(), Start([true, false, false])));
      && r.position == 2 && r.unused == [true, false, false]
      && r.lastName == Some("margin") && r.lastProperty == Some(1)
      && "color" !in r.overrideMapping
  {
    var c := ColorMarginColor();
    var s := Start([true, false, false]);
    StepSkipsUnused(c, s);
    var t := s.(position := 1);
    assert EffName(c, t) == "margin";
    assert Shorthands.Of("margin") == [];
    StepRegisters(c, t);
    Properties.RegisterAppends(map[], "margin", 1);
  }

  /** The last `color` finds no candidate after the restart and is registered. */
  lemma ColorMarginColorLast(s: State)
    requires Valid(ColorMarginColor(), s) && s.position == 2 && s.unused == [true, false, false]
    requires s.lastName == Some("margin") && s.lastProperty == Some(1)
    requires "color" !in s.overrideMapping
    ensures Step(ColorMarginColor(), s).position == 3 && Step(ColorMarginColor(), s).unused == [true, false, false]
  {
    var c := ColorMarginColor();
    assert EffName(c, s) == "color";
    assert !IsDuplicate(c, s);
    StepRegisters(c, s);
  }

  /**
   * `color:red; margin:0; color:blue`: the first is overridden, the pass
   * restarts, and the other two stay.
   */
  lemma RestartKeepsTheRest()
    ensures Resolve(ColorMarginColor(), [false, false, false]) == [true, false, false]
  {
    var c := ColorMarginColor();
    var s0 := Start([false, false, false]);
    RunStep(c, s0);
    ColorMarginColorFirst();
    var s1 := Step(c, s0);
    RunStep(c, s1);
    ColorMarginColorSecond(s1);
    var s2 := Step(c, s1);
    RunStep(c, s2);
    ColorMarginColorThird(s2);
    ColorMarginColorSecondPass();
  }

  /** Position 0 is registered under `color` only. */
  lemma ColorMarginColorFirst()
    ensures var r := Step(ColorMarginColor(), Start([false, false, false]));
      && r.position == 1 && r.unused == [false, false, false]
      && r.lastName == Some("color") && r.lastProperty == Some(0)
      && r.overrideMapping == map["color" := [0]]
  {
    var c := ColorMarginColor();
    assert EffName(c, Start([false, false, false])) == "color";
    assert Shorthands.Of("color") == [];
    StepRegisters(c, Start([false, false, false]));
    var m: map<string, seq<int>> := map[];
    assert Candidates(m, "color") == [];
    assert Candidates(m, "color") + [0] == [0];
    assert Push(m, "color", 0) == m["color" := Candidates(m, "color") + [0]];
    assert Push(m, "color", 0) == m["color" := [0]];
  }

  /** The pass after the restart keeps all that is left. */
  lemma ColorMarginColorSecondPass()
    ensures Run(ColorMarginColor(), Start([true, false, false])) == [true, false, false]
  {
    var c := ColorMarginColor();
    var s3 := Start([true, false, false]);
    RunStep(c, s3);
    RunStep(c, Step(c, s3));
    ColorMarginColorRestarted();
    var s5 := Step(c, Step(c, s3));
    RunStep(c, s5);
    ColorMarginColorLast(s5);
  }

  /** `color:red; color:red` with merging never allowed. */
  function RedTwice(): Config {
    Config([Decl("color", false, NoHack, "color:red"), Decl("color", false, NoHack, "color:red")],
           Never, false, NoChecks)
  }

  /** `color:red; color:red` with merging never allowed: the duplicate still goes. */
  lemma DuplicateCollapsesWithoutMerging()
    ensures Resolve(RedTwice(), [false, false]) == [false, true]
  {
    var c := RedTwice();
    var s0 := Start([false, false]);
    RunStep(c, s0);
    Properties.FirstIsRegistered(c, [false, false]);
    var s1 := Step(c, s0);
    RunStep(c, s1);
    assert EffName(c, s1) == "color";
    assert IsDuplicate(c, s1);
    StepCollapsesDuplicate(c, s1);
  }

  /** `*color:red!important; color:blue` with merging always allowed. */
  function StarThenPlain(): Config {
    Config([Decl("color", true, Star, "*color:red!important"), Decl("color", false, NoHack, "color:blue")],
           Always, false, NoChecks)
  }

  /**
   * `*color:red!important; color:blue`: an important star-hacked
   * declaration makes the later plain one unused, since an important
   * candidate is never skipped for a hack mismatch (lines 97-109).
   */
  lemma ImportantStarHackBeatsPlain()
    ensures Resolve(StarThenPlain(), [false, false]) == [false, true]
  {
    var c := StarThenPlain();
    var s0 := Start([false, false]);
    RunStep(c, s0);
    Properties.FirstIsRegistered(c, [false, false]);
    var s1 := Step(c, s0);
    RunStep(c, s1);
    StarThenPlainSecond(s1);
  }

  /** The plain `color` loses to the important star-hacked one. */
  lemma StarThenPlainSecond(s: State)
    requires Valid(StarThenPlain(), s) && s.position == 1 && s.unused == [false, false]
    requires s.lastName == Some("color") && s.lastProperty == Some(0)
    requires "color" in s.overrideMapping && s.overrideMapping["color"] == [0]
    ensures Step(StarThenPlain(), s) == s.(unused := [false, true], lastProperty := Some(1), position := 2)
  {
    var c := StarThenPlain();
    assert EffName(c, s) == "color";
    assert !IsDuplicate(c, s);
    ScanNewest(c, 1, "color", [0], [false, false], false);
    assert Scan(c, 1, "color", [0], [false, false], false) == Lost([false, false]);
    StepCurrentLoses(c, s);
  }

  /** A `canOverride` check that never allows an override. */
  function NeverOverride(name: string): Option<OverrideCheck> {
    Some((earlier: Decl, current: Decl) => false)
  }

  /**
   * An important declaration, an important one with a hack that loses to
   * it, and an important one without a hack that the check keeps; the last
   * two serialise alike.
   */
  function HackBetweenTwins(): Config {
    Config([Decl("color", true, NoHack, "a"), Decl("color", true, OtherHack("bang"), "b"),
            Decl("color", true, NoHack, "b")],
           Always, false, NeverOverride)
  }

  /** First pass, position 1: the hacked declaration loses to the important one. */
  lemma TwinsFirstPassSecond(s: State)
    requires Valid(HackBetweenTwins(), s) && s.position == 1 && s.unused == [false, false, false]
    requires s.lastName == Some("color") && s.lastProperty == Some(0)
    requires "color" in s.overrideMapping && s.overrideMapping["color"] == [0]
    ensures Step(HackBetweenTwins(), s) == s.(unused := [false, true, false], lastProperty := Some(1), position := 2)
  {
    var c := HackBetweenTwins();
    assert EffName(c, s) == "color";
    assert !IsDuplicate(c, s);
    ScanNewest(c, 1, "color", [0], [false, false, false], false);
    assert Scan(c, 1, "color", [0], [false, false, false], false) == Lost([false, false, false]);
    StepCurrentLoses(c, s);
  }

  /** First pass, position 2: no duplicate of the unused position 1, and the check keeps position 0. */
  lemma TwinsFirstPassThird(s: State)
    requires Valid(HackBetweenTwins(), s) && s.position == 2 && s.unused == [false, true, false]
    requires s.lastName == Some("color") && s.lastProperty == Some(1)
    requires "color" in s.overrideMapping && s.overrideMapping["color"] == [0]
    ensures Step(HackBetweenTwins(), s).position == 3 && Step(HackBetweenTwins(), s).unused == [false, true, false]
  {
    var c := HackBetweenTwins();
    assert EffName(c, s) == "color";
    assert !IsDuplicate(c, s);
    ScanNewest(c, 2, "color", [0], [false, true, false], false);
    assert Scan(c, 2, "color", [0], [false, true, false], false) == Kept([false, true, false], false);
    StepSurvivesScan(c, s);
  }

  /** Second pass, position 2: now the last property is position 0, and position 2 duplicates. */
  lemma TwinsSecondPassThird(s: State)
    requires Valid(HackBetweenTwins(), s) && s.position == 2 && s.unused == [false, true, false]
    requires s.lastName == Some("color") && s.lastProperty == Some(0)
    ensures Step(HackBetweenTwins(), s).position == 3 && Step(HackBetweenTwins(), s).unused == [false, true, true]
  {
    var c := HackBetweenTwins();
    assert EffName(c, s) == "color";
    assert IsDuplicate(c, s);
    StepCollapsesDuplicate(c, s);
  }

  /**
   * Running the resolver again on its own result can mark more: the second
   * pass sees positions 0 and 2 as adjacent duplicates, because position 1
   * between them is already unused and serialises like position 2.
   */
  lemma SecondPassCanMarkMore()
    ensures Resolve(HackBetweenTwins(), [false, false, false]) == [false, true, false]
    ensures Resolve(HackBetweenTwins(), [false, true, false]) == [false, true, true]
  {
    var c := HackBetweenTwins();
    var s0 := Start([false, false, false]);
    RunStep(c, s0);
    Properties.FirstIsRegistered(c, [false, false, false]);
    var s1 := Step(c, s0);
    RunStep(c, s1);
    TwinsFirstPassSecond(s1);
    var s2 := Step(c, s1);
    RunStep(c, s2);
    TwinsFirstPassThird(s2);

    var t0 := Start([false, true, false]);
    RunStep(c, t0);
    Properties.FirstIsRegistered(c, [false, true, false]);
    var t1 := Step(c, t0);
    RunStep(c, t1);
    StepSkipsUnused(c, t1);
    var t2 := Step(c, t1);
    RunStep(c, t2);
    TwinsSecondPassThird(t2);
  }
}
