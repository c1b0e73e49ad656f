/**
 * The three lazy iterators over a parsed table.
 *
 * Each iterator owns the bytes it has not read yet. Its `Items` are everything it will still yield, so
 * `Next` takes the first item off that sequence and keeps answering None once the sequence is empty.
 */
module Iterators {
  import opened Words
  import opened Leb128
  import opened Table

  class SiteIterator {
    const lsda: Lsda
    var input: Bytes
    var done: bool

    ghost function Items(): seq<SiteItem>
      reads this
    {
      if done then [] else SiteItems(lsda, input)
    }

    constructor (lsda: Lsda)
      ensures this.lsda == lsda && Items() == Sites(lsda)
    {
      this.lsda := lsda;
      input := lsda.callSites;
      done := false;
    }

    method Next() returns (item: Option<SiteItem>)
      modifies this
      ensures old(Items()) == [] ==> item == None && Items() == []
      ensures old(Items()) != [] ==> item == Some(old(Items())[0]) && Items() == old(Items())[1..]
    {
      var finished := done || input == [];
      if finished {
        item := None;
      } else {
        match CallSite(input, lsda)
        case Ok((rest, site)) =>
          input := rest;
          item := Some(Ok(site));
        case Err(error) =>
          done := true;
          item := Some(Err(error));
      }
    }
  }

  class ChainIterator {
    const bytes: Bytes
    var next: Option<Bytes>
    var fuel: nat
    const floor: Word

    ghost function Items(): seq<KindItem>
      reads this
    {
      ChainItems(bytes, floor, next, fuel)
    }

    constructor (lsda: Lsda, start: Word)
      requires start < |lsda.bytes|
      ensures Items() == ChainItems(lsda.bytes, lsda.actionOffset, Some(lsda.bytes[start..]), |lsda.bytes| + 1)
    {
      hide ChainItems;
      bytes := lsda.bytes;
      next := Some(lsda.bytes[start..]);
      fuel := |lsda.bytes| + 1;
      floor := lsda.actionOffset;
    }

    method Next() returns (item: Option<KindItem>)
      modifies this
      ensures old(Items()) == [] ==> item == None && Items() == []
      ensures old(Items()) != [] ==> item == Some(old(Items())[0]) && Items() == old(Items())[1..]
    {
      match next
      case None => item := None;
      case Some(input) =>
        if fuel == 0 {
          next := None;
          item := Some(Err(Loop));
        } else {
          fuel := fuel - 1;
          match Record(bytes, floor, input)
          case Ok((kind, nextInput)) =>
            next := nextInput;
            item := Some(Ok(kind));
          case Err(error) =>
            next := None;
            item := Some(Err(error));
        }
    }
  }

  class FilterIterator {
    var input: Bytes
    var done: bool

    ghost function Items(): seq<TypeItem>
      reads this
    {
      if done then [] else FilterItems(input)
    }

    constructor (start: Bytes)
      ensures Items() == FilterItems(start)
    {
      input := start;
      done := false;
    }

    method Next() returns (item: Option<TypeItem>)
      modifies this
      ensures old(Items()) == [] ==> item == None && Items() == []
      ensures old(Items()) != [] ==> item == Some(old(Items())[0]) && Items() == old(Items())[1..]
    {
      if done {
        item := None;
      } else {
        match Uleb(input)
        case Ok((rest, index)) =>
          input := rest;
          if index == 0 {
            done := true;
            item := None;
          } else {
            item := Some(Ok(index));
          }
        case Err(error) =>
          done := true;
          item := Some(Err(error));
      }
    }
  }

  /** The call-site search of the source: one pass over a fresh iterator that stops as early as it can. */
  method FindSiteAt(lsda: Lsda, pc: Word) returns (r: Result<Option<Site>, LsdaError>)
    ensures r == SiteAt(lsda, pc)
  {
    hide *;
    SiteAtIs(lsda, pc);
    if pc < lsda.bases.function_ {
      return Err(Table);
    }
    var relative := pc - lsda.bases.function_;
    var sites := new SiteIterator(lsda);
    ghost var all := sites.Items();
    while true
      invariant FindSite(sites.Items(), relative) == FindSite(all, relative)
      decreases |sites.Items()|
    {
      ghost var left := sites.Items();
      var item := sites.Next();
      FindSiteStep(left, relative);
      match item {
        case None => return Ok(None);
        case Some(Err(error)) => return Err(error);
        case Some(Ok(site)) =>
          var end := site.start + site.length;
          if end >= WORD {
            return Err(Overflow);
          }
          if site.start <= relative < end {
            return Ok(Some(site));
          }
          if relative < site.start {
            return Ok(None);
          }
      }
    }
  }

  lemma SiteAtIs(lsda: Lsda, pc: Word)
    ensures SiteAt(lsda, pc)
            == if pc < lsda.bases.function_ then Err(Table) else FindSite(Sites(lsda), pc - lsda.bases.function_)
  {
    hide Sites, FindSite;
  }

  /** One step of the search, by the first item. */
  lemma FindSiteStep(items: seq<SiteItem>, pc: Word)
    ensures FindSite(items, pc) ==
            if items == [] then Ok(None)
            else if items[0].Err? then Err(items[0].error)
            else
              var site := items[0].value;
              if site.start + site.length >= WORD then Err(Overflow)
              else if site.start <= pc < site.start + site.length then Ok(Some(site))
              else if pc < site.start then Ok(None)
              else FindSite(items[1..], pc)
  {
  }

  /** The search goes on behind an entry that decodes, ends within a word, does not cover, and does not start later. */
  predicate PassedBy(item: SiteItem, pc: Word) {
    && item.Ok? && item.value.start + item.value.length < WORD
    && item.value.start <= pc && !(pc < item.value.start + item.value.length)
  }

  /** The search in every case, by the first item that it does not pass by. */
  lemma {:induction false} FindSiteMeans(items: seq<SiteItem>, pc: Word, i: nat)
    requires i <= |items| && forall k | 0 <= k < i :: PassedBy(items[k], pc)
    ensures i == |items| ==> FindSite(items, pc) == Ok(None)
    ensures i < |items| && !PassedBy(items[i], pc) ==>
              FindSite(items, pc)
              == if items[i].Err? then Err(items[i].error)
                 else if items[i].value.start + items[i].value.length >= WORD then Err(Overflow)
                 else if items[i].value.start <= pc then Ok(Some(items[i].value))
                 else Ok(None)
    decreases |items|
  {
    if i > 0 {
      assert PassedBy(items[0], pc);
      FindSiteMeans(items[1..], pc, i - 1);
    }
  }

  // ---- The early exit against exhaustive search ----

  predicate Decodes(items: seq<SiteItem>) {
    forall i | 0 <= i < |items| :: items[i].Ok? && items[i].value.start + items[i].value.length < WORD
  }

  predicate Sorted(items: seq<SiteItem>)
    requires Decodes(items)
  {
    forall i, j | 0 <= i < j < |items| :: items[i].value.start <= items[j].value.start
  }

  /** Exhaustive first-match search. */
  function FirstCover(items: seq<SiteItem>, pc: Word): Option<nat>
    requires Decodes(items)
    ensures var r := FirstCover(items, pc);
            match r
            case Some(i) =>
              i < |items| && Covers(items[i].value, pc) && forall k | 0 <= k < i :: !Covers(items[k].value, pc)
            case None => forall k | 0 <= k < |items| :: !Covers(items[k].value, pc)
  {
    if items == [] then None
    else if Covers(items[0].value, pc) then Some(0)
    else match FirstCover(items[1..], pc) case Some(i) => Some(i + 1) case None => None
  }

  /** The result the exhaustive search gives. */
  function Exhaustive(items: seq<SiteItem>, pc: Word): Option<Site>
    requires Decodes(items)
  {
    match FirstCover(items, pc) case Some(i) => Some(items[i].value) case None => None
  }

  /**
   * On a table that decodes, the early exit finds what the exhaustive search finds exactly when no entry in
   * front of the first covering one starts after the counter.
   */
  lemma {:induction false} EarlyExitIff(items: seq<SiteItem>, pc: Word)
    requires Decodes(items)
    ensures FindSite(items, pc) == Ok(Exhaustive(items, pc)) <==>
            match FirstCover(items, pc)
            case Some(i) => forall k | 0 <= k < i :: items[k].value.start <= pc
            case None => true
    decreases |items|
  {
    if items != [] && !Covers(items[0].value, pc) {
      var rest := items[1..];
      assert forall k | 0 <= k < |rest| :: rest[k] == items[k + 1];
      EarlyExitIff(rest, pc);
      match FirstCover(rest, pc)
      case None =>
      case Some(i) =>
        if forall k | 0 <= k < i :: rest[k].value.start <= pc {
          if items[0].value.start <= pc {
            assert forall k | 0 <= k < i + 1 :: items[k].value.start <= pc by {
              forall k | 0 <= k < i + 1 ensures items[k].value.start <= pc {
                if k > 0 { assert rest[k - 1] == items[k]; }
              }
            }
          }
        } else {
          var k :| 0 <= k < i && rest[k].value.start > pc;
          assert items[k + 1].value.start > pc;
        }
    }
  }

  /** Tables in start order, zero-length entries included, lose nothing to the early exit. */
  lemma SortedLookup(lsda: Lsda, pc: Word)
    requires lsda.bases.function_ <= pc
    requires Decodes(Sites(lsda)) && Sorted(Sites(lsda))
    ensures SiteAt(lsda, pc) == Ok(Exhaustive(Sites(lsda), pc - lsda.bases.function_))
  {
    hide Sites, FindSite, FirstCover;
    EarlyExitIff(Sites(lsda), pc - lsda.bases.function_);
  }
}
