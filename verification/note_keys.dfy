/**
 * The sort-key codec of the note table: a note with id `id` is stored
 * under the sort key `note#<id>`, and the id is recovered by stripping
 * one leading `note#`.
 */
module NoteKeys {

  /** The literal prefix of every sort key written by the note store. */
  const Prefix: string := "note#"

  /** `sk` begins with `note#`. */
  predicate HasPrefix(sk: string) {
    |Prefix| <= |sk| && sk[..|Prefix|] == Prefix
  }

  /** `idToSk`: the sort key under which the note `id` is stored. */
  function IdToSk(id: string): (sk: string)
    ensures HasPrefix(sk)
    ensures sk[|Prefix|..] == id
  {
    Prefix + id
  }

  /**
   * `skToId`: the regular expression `^note#` is anchored and has no `g`
   * flag, so at most one leading `note#` is removed; a string that does not
   * start with it comes back unchanged.
   */
  function SkToId(sk: string): (id: string)
    ensures HasPrefix(sk) ==> IdToSk(id) == sk
    ensures !HasPrefix(sk) ==> id == sk
  {
    if HasPrefix(sk) then sk[|Prefix|..] else sk
  }

  /**
   * Round trip: every id comes back from its sort key, including an id that
   * itself starts with `note#` (only the prefix added by IdToSk is removed).
   */
  lemma IdRoundTrip(id: string)
    ensures SkToId(IdToSk(id)) == id
  {
  }

  /** Distinct ids never share a sort key. */
  lemma IdToSkInjective(a: string, b: string)
    ensures IdToSk(a) == IdToSk(b) <==> a == b
  {
  }

  /**
   * SkToId is not injective on arbitrary strings: a sort key without the
   * prefix decodes to the same id as the prefixed one. Keys written through
   * IdToSk always carry the prefix, so this never arises in the table.
   */
  lemma UnprefixedSortKeyCollides(sk: string)
    requires !HasPrefix(sk)
    ensures SkToId(sk) == SkToId(IdToSk(sk))
    ensures sk != IdToSk(sk)
  {
  }
}
