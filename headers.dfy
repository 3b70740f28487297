/** Header collections as the hosts hand them over: `NameValueCollection` in
    IIS and `IHeaderDictionary` in ASP.NET Core keep one entry per name,
    names compared ignoring case, and a name sent several times has its
    values joined with "," into that one entry. */
module HeaderCollections {
  import opened OrdinalText

  /** Entries in enumeration order, as name and (already joined) value. */
  type Headers = seq<(string, string)>

  /** No two entries have names that are equal ignoring case. */
  predicate DistinctNames(headers: Headers) {
    forall i, j :: 0 <= i < j < |headers| ==> !EqualsIgnoreCase(headers[i].0, headers[j].0)
  }

  /** In such a collection a name, ignoring case, picks out at most one
      entry. */
  lemma SoleEntry(headers: Headers, i: int, name: string)
    requires DistinctNames(headers) && 0 <= i < |headers| && EqualsIgnoreCase(headers[i].0, name)
    ensures forall j :: 0 <= j < |headers| && j != i ==> !EqualsIgnoreCase(headers[j].0, name)
  {
    forall j | 0 <= j < |headers| && j != i
      ensures !EqualsIgnoreCase(headers[j].0, name)
    {
      DiffersThrough(headers[i].0, headers[j].0, name);
    }
  }
}
