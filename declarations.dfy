/**
 * Declarations as the override resolver sees them: already parsed, with
 * a name, an importance marker, a browser hack tag and the serialised text.
 */
module Declarations {
  import opened Wrappers

  /**
   * The hack tag; only `NoHack` is falsy in the source's truthiness tests.
   * Hacks other than star and underscore keep their kind, so two of them
   * compare equal only when they are of the same kind.
   */
  datatype Hack = NoHack | Star | Underscore | OtherHack(kind: string)

  /** `true` when the hack tag is truthy (lines 97, 103 and 106 of the resolver). */
  predicate IsHack(h: Hack) {
    h != NoHack
  }

  /**
   * One declaration. `text` stands for what the writer serialises the
   * declaration to; the resolver only ever compares it for equality.
   */
  datatype Decl = Decl(name: string, important: bool, hack: Hack, text: string)

  /** The `mergeAdjacent` argument: `true`, `false`, or a list of positions. */
  datatype Policy = Always | Never | At(positions: seq<int>)

  /** `mergeablePosition`: the boolean policy as is, or membership in the list. */
  function MergeablePosition(policy: Policy, position: int): (r: bool)
    ensures policy == Always ==> r
    ensures policy == Never ==> !r
    ensures policy.At? ==> (r <==> exists i :: 0 <= i < |policy.positions| && policy.positions[i] == position)
  {
    match policy
    case Always => true
    case Never => false
    case At(positions) => position in positions
  }

  predicate IsFilter(name: string) {
    name == "-ms-filter" || name == "filter"
  }

  predicate IsBackground(name: string) {
    name == "background" || name == "background-image"
  }

  /**
   * The name a declaration is tracked under: a `filter` or `-ms-filter`
   * declaration that follows a `background` or `background-image` one is
   * tracked under that background name, every other one under its own.
   */
  function EffectiveName(name: string, lastName: Option<string>): (r: string)
    ensures r == name || (IsFilter(name) && lastName == Some(r) && IsBackground(r))
    ensures IsFilter(name) && lastName.Some? && IsBackground(lastName.value) ==> r == lastName.value
    ensures !IsFilter(name) ==> r == name
  {
    if IsFilter(name) then
      (if lastName.Some? && IsBackground(lastName.value) then lastName.value else name)
    else
      name
  }
}
