/**
 * The RFC index as the script holds it in memory: a dictionary from doc-id
 * ("RFC0791") to the record built for that entry of rfc-index.xml.
 */
module RfcIndex {

  /** One entry of the index: the doc-ids the RFC updates, obsoletes and sees
      also, and its keywords. Every record the index builder makes carries all
      four sets (absent XML elements give empty sets). */
  datatype Info = Info(updates: set<string>, obsoletes: set<string>, seeAlso: set<string>, keywords: set<string>)

  type Index = map<string, Info>

  /** The three command-line switches --include-updates, --include-obsoletes
      and --include-see-also. */
  datatype Follow = Follow(updates: bool, obsoletes: bool, seeAlso: bool)

  /** The doc-ids one record contributes to the frontier: the relation sets
      whose switch is on. */
  function Related(info: Info, follow: Follow): set<string>
  {
    (if follow.updates then info.updates else {})
    + (if follow.obsoletes then info.obsoletes else {})
    + (if follow.seeAlso then info.seeAlso else {})
  }

  /** The enabled edges out of a doc-id. An id that is not a key has none: the
      resolver stops there (with an error), it never looks further. */
  function Succ(index: Index, follow: Follow, x: string): set<string>
  {
    if x in index then Related(index[x], follow) else {}
  }

  /** Every doc-id the index mentions, as a key or inside a relation set. */
  ghost function Mentioned(index: Index): (ids: set<string>)
    ensures index.Keys <= ids
    ensures forall x, y :: x in index && y in Related(index[x], Follow(true, true, true)) ==> y in ids
  {
    index.Keys + set x, y | x in index && y in Related(index[x], Follow(true, true, true)) :: y
  }

  /** A set is closed when it holds every enabled successor of its members. */
  ghost predicate Closed(index: Index, follow: Follow, s: set<string>)
  {
    forall x :: x in s ==> Succ(index, follow, x) <= s
  }
}
