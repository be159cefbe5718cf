/** rfcs_by_keyword: the RFCs tagged with at least one of the given keywords. */
module Keywords {
  import opened RfcIndex

  /** The index entry `docid` carries one of `keywords`. */
  predicate HasKeyword(index: Index, docid: string, keywords: set<string>)
    requires docid in index
  {
    exists k :: k in keywords && k in index[docid].keywords
  }

  /** Scans the index entry by entry and collects the doc-ids whose keyword
      set is not disjoint from `keywords`. */
  method RfcsByKeyword(index: Index, keywords: set<string>) returns (ret: set<string>)
    ensures forall d :: d in ret <==> d in index && HasKeyword(index, d, keywords)
    ensures keywords == {} ==> ret == {}
  {
    ret := {};
    var todo := index.Keys;
    while todo != {}
      invariant todo <= index.Keys
      invariant forall d :: d in ret <==> d in index && d !in todo && HasKeyword(index, d, keywords)
      decreases todo
    {
      var docid :| docid in todo;
      if !(index[docid].keywords !! keywords) {
        ret := ret + {docid};
      }
      todo := todo - {docid};
    }
  }
}
