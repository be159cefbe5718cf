/**
 * The selection part of `main`: the doc-ids that are handed to the packer.
 * With --all, every key of the index; otherwise the RFC numbers given on the
 * command line (as "RFC" + number) together with the keyword matches,
 * closed under the enabled relations. Either way the list is sorted.
 */
module Selection {
  import opened Wrappers
  import opened RfcIndex
  import opened Keywords
  import opened References
  import opened Ordering

  /** The seed set of `main`: "RFC" prefixed to each number given, plus every
      entry tagged with one of the keywords. */
  ghost function Seeds(index: Index, numbers: seq<string>, keywords: seq<string>): (seeds: set<string>)
    ensures forall d :: d in index && HasKeyword(index, d, set k | k in keywords) ==> d in seeds
  {
    (set n | n in numbers :: "RFC" + n) + (set d | d in index && HasKeyword(index, d, set k | k in keywords))
  }

  /** The sorted list of doc-ids `main` passes to build_docs, or the KeyError
      the resolver raises. */
  method SelectRfcs(index: Index, numbers: seq<string>, keywords: seq<string>, follow: Follow, all: bool)
    returns (r: Result<seq<string>, KeyError>)
    ensures r.Ok? ==> StrictlySorted(r.value)
    ensures all ==> r.Ok? && forall x :: x in r.value <==> x in index
    ensures !all && r.Ok? ==> forall x :: x in r.value <==> Reachable(index, follow, Seeds(index, numbers, keywords), x)
    ensures !all ==> (r.Ok? <==> forall y :: Reachable(index, follow, Seeds(index, numbers, keywords), y) ==> y in index)
  {
    var rfcs: set<string>;
    if all {
      rfcs := index.Keys;
    } else {
      rfcs := set n | n in numbers :: "RFC" + n;
      var matches := RfcsByKeyword(index, set k | k in keywords);
      rfcs := rfcs + matches;
      assert rfcs == Seeds(index, numbers, keywords);
      var closure := FollowReferences(index, rfcs, follow);
      if closure.Err? {
        return Err(closure.error);
      }
      rfcs := closure.value;
    }
    var sorted := SortIds(rfcs);
    return Ok(sorted);
  }
}
