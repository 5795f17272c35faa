/**
 * The static table of broader shorthands a border longhand is also
 * tracked under, so that a later shorthand can override it.
 */
module Shorthands {
  const Table: map<string, seq<string>> := map[
    "border-color" := ["border"],
    "border-style" := ["border"],
    "border-width" := ["border"],
    "border-bottom" := ["border"],
    "border-bottom-color" := ["border-bottom", "border-color", "border"],
    "border-bottom-style" := ["border-bottom", "border-style", "border"],
    "border-bottom-width" := ["border-bottom", "border-width", "border"],
    "border-left" := ["border"],
    "border-left-color" := ["border-left", "border-color", "border"],
    "border-left-style" := ["border-left", "border-style", "border"],
    "border-left-width" := ["border-left", "border-width", "border"],
    "border-right" := ["border"],
    "border-right-color" := ["border-right", "border-color", "border"],
    "border-right-style" := ["border-right", "border-style", "border"],
    "border-right-width" := ["border-right", "border-width", "border"],
    "border-top" := ["border"],
    "border-top-color" := ["border-top", "border-color", "border"],
    "border-top-style" := ["border-top", "border-style", "border"],
    "border-top-width" := ["border-top", "border-width", "border"]
  ]

  /** The shorthand groups of `name`; a name outside the table has none. */
  function Of(name: string): seq<string> {
    if name in Table then Table[name] else []
  }

  /** Every non-empty group list ends with the full `border` shorthand. */
  lemma GroupsEndWithBorder(name: string)
    ensures |Of(name)| > 0 <==> name in Table
    ensures name in Table ==> Of(name)[|Of(name)| - 1] == "border"
  {
  }

  /** No name is listed under itself, and no group is listed twice. */
  lemma GroupsAreDistinct(name: string)
    ensures name !in Of(name)
    ensures forall i, j :: 0 <= i < j < |Of(name)| ==> Of(name)[i] != Of(name)[j]
  {
  }

  /** `border` is the broadest shorthand: it is tracked under nothing else. */
  lemma BorderIsTop()
    ensures Of("border") == []
  {
  }

  /**
   * The groups are closed: whatever covers a group of `name` is itself a
   * group of `name`.
   */
  lemma GroupsAreClosed(name: string, group: string)
    requires group in Of(name)
    ensures forall g :: g in Of(group) ==> g in Of(name)
  {
    if group == "border" {
      BorderIsTop();
    } else {
      IntermediateGroups(name, group);
      GroupsEndWithBorder(name);
    }
  }

  /**
   * Every group other than `border` is an edge or aspect shorthand that is
   * itself tracked under `border` alone.
   */
  lemma IntermediateGroups(name: string, group: string)
    requires group in Of(name) && group != "border"
    ensures Of(group) == ["border"]
  {
  }
}
