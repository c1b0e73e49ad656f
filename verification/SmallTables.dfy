/** Tables small enough that every field is a single byte. */
module SmallTables {
  import opened Words
  import opened Leb128
  import opened Encoding
  import opened Table
  import opened RoundTrip

  function Small(types: Option<Types>): Layout {
    Layout(None, types, ULEB, Little)
  }

  predicate SmallEntry(e: Entry) {
    e.start < 128 && e.length < 128 && e.landing < 128 && e.action < 128
  }

  predicate SmallEntries(entries: seq<Entry>) {
    |entries| < 16 && forall i | 0 <= i < |entries| :: SmallEntry(entries[i])
  }

  lemma {:induction false} SitesSize(entries: seq<Entry>)
    requires forall i | 0 <= i < |entries| :: SmallEntry(entries[i])
    ensures |PrintSites(entries, ULEB, Little)| == 4 * |entries|
  {
    hide PrintSite;
    if entries != [] {
      SitesSize(entries[1..]);
      SiteSize(entries[0]);
    }
  }

  lemma SiteSize(e: Entry)
    requires SmallEntry(e)
    ensures |PrintSite(e, ULEB, Little)| == 4
  {
    assert |EncodeUleb(e.start)| == |EncodeUleb(e.length)| == |EncodeUleb(e.landing)| == |EncodeUleb(e.action)| == 1;
  }

  /** A small table can be printed in front of anything that does not fill the address space. */
  lemma SmallPrintable(entries: seq<Entry>, bases: Bases, actions: Bytes)
    requires SmallEntries(entries) && |actions| < 1000 && bases.function_ < 1_000_000
    ensures PrintableTable(Small(None), bases, entries, actions)
    ensures LandingBase(Small(None), bases) == bases.function_
  {
    SitesSize(entries);
    assert |EncodeUleb(4 * |entries|)| == 1;
    forall i | 0 <= i < |entries| ensures Printable(entries[i], ULEB, bases.function_) {
      assert SmallEntry(entries[i]);
    }
  }
}
