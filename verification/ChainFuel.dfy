/** The progress budget of an action chain is spent exactly by the chains that never end. */
module ChainFuel {
  import opened Words
  import opened Leb128
  import opened Table

  /** The position of the record that the record at `p` links to. */
  function Hop(whole: Bytes, floor: Word, p: nat): (r: Option<nat>)
    requires p <= |whole|
    ensures r.Some? ==> floor <= r.value < |whole|
  {
    match Record(whole, floor, whole[p..])
    case Ok((_, Some(next))) => Some(|whole| - |next|)
    case _ => None
  }

  /** The position after following `n` links from `p`, if there are that many to follow. */
  function Reach(whole: Bytes, floor: Word, p: nat, n: nat): (r: Option<nat>)
    requires floor <= p < |whole|
    ensures r.Some? ==> floor <= r.value < |whole|
    decreases n
  {
    if n == 0 then Some(p)
    else match Hop(whole, floor, p) case None => None case Some(q) => Reach(whole, floor, q, n - 1)
  }

  ghost predicate Endless(whole: Bytes, floor: Word, p: nat)
    requires floor <= p < |whole|
  {
    forall n: nat :: Reach(whole, floor, p, n).Some?
  }

  function ItemsAt(whole: Bytes, floor: Word, p: nat, fuel: nat): seq<KindItem>
    requires p <= |whole|
  {
    ChainItems(whole, floor, Some(whole[p..]), fuel)
  }

  lemma RecordLinks(whole: Bytes, floor: Word, p: nat)
    requires p <= |whole|
    ensures match Record(whole, floor, whole[p..])
            case Ok((_, Some(next))) => Hop(whole, floor, p).Some? && next == whole[Hop(whole, floor, p).value..]
            case Ok((_, None)) => Hop(whole, floor, p).None?
            case Err(e) => Hop(whole, floor, p).None? && e != Loop
  {
  }

  /** One step of the iterator: a kind and then the linked record, or the last item. */
  lemma ItemsStep(whole: Bytes, floor: Word, p: nat, fuel: nat)
    requires p <= |whole|
    ensures fuel == 0 ==> ItemsAt(whole, floor, p, fuel) == [Err(Loop)]
    ensures var items := ItemsAt(whole, floor, p, fuel);
            fuel > 0 ==>
              && items != [] && items[0] != Err(Loop)
              && match Hop(whole, floor, p)
                 case Some(q) => items[0].Ok? && items == [items[0]] + ItemsAt(whole, floor, q, fuel - 1)
                 case None => |items| == 1
  {
    if fuel > 0 {
      RecordLinks(whole, floor, p);
      match Record(whole, floor, whole[p..])
      case Ok((kind, next)) =>
        assert ItemsAt(whole, floor, p, fuel) == [Ok(kind)] + ChainItems(whole, floor, next, fuel - 1);
        if next.None? { assert ChainItems(whole, floor, next, fuel - 1) == []; }
      case Err(e) =>
        assert ItemsAt(whole, floor, p, fuel) == [Err(e)];
    }
  }

  /** The budget runs out exactly when that many links can be followed. */
  lemma {:induction false} LoopIffReach(whole: Bytes, floor: Word, p: nat, fuel: nat)
    requires floor <= p < |whole|
    ensures var items := ItemsAt(whole, floor, p, fuel);
            && |items| <= fuel + 1
            && (Err(Loop) in items <==> Reach(whole, floor, p, fuel).Some?)
            && (Err(Loop) in items ==> |items| == fuel + 1 && forall i | 0 <= i < fuel :: items[i].Ok?)
    decreases fuel
  {
    hide Hop, ItemsAt;
    ItemsStep(whole, floor, p, fuel);
    if fuel > 0 {
      match Hop(whole, floor, p)
      case Some(q) => LoopIffReach(whole, floor, q, fuel - 1);
      case None =>
    }
  }

  lemma {:induction false} ReachAdd(whole: Bytes, floor: Word, p: nat, m: nat, n: nat)
    requires floor <= p < |whole|
    ensures Reach(whole, floor, p, m + n) ==
            match Reach(whole, floor, p, m) case None => None case Some(q) => Reach(whole, floor, q, n)
    decreases m
  {
    hide Hop;
    if m > 0 {
      match Hop(whole, floor, p)
      case None =>
      case Some(q) => ReachAdd(whole, floor, q, m - 1, n);
    }
  }

  /** More values than numbers below `bound` repeat one. */
  lemma {:induction false} Pigeonhole(values: seq<nat>, bound: nat)
    requires |values| > bound
    requires forall i | 0 <= i < |values| :: values[i] < bound
    ensures exists i, j :: 0 <= i < j < |values| && values[i] == values[j]
    decreases bound
  {
    var last := |values| - 1;
    var top := values[last];
    if i :| 0 <= i < last && values[i] == top {
    } else {
      // Move the value bound - 1 into the hole that the last value leaves.
      var fewer := seq(last, i requires 0 <= i < last => if values[i] == bound - 1 then top else values[i]);
      assert forall i | 0 <= i < last :: fewer[i] < bound - 1;
      Pigeonhole(fewer, bound - 1);
      var i, j :| 0 <= i < j < last && fewer[i] == fewer[j];
      assert values[i] == values[j];
    }
  }

  lemma ReachPrefix(whole: Bytes, floor: Word, p: nat, n: nat, m: nat)
    requires floor <= p < |whole| && n <= m
    requires Reach(whole, floor, p, m).Some?
    ensures Reach(whole, floor, p, n).Some?
  {
    hide Hop, Reach;
    ReachAdd(whole, floor, p, n, m - n);
  }

  /** A position that reaches itself again can be left any number of times. */
  lemma {:induction false} Cycle(whole: Bytes, floor: Word, p: nat, period: nat, n: nat)
    requires floor <= p < |whole| && period > 0
    requires Reach(whole, floor, p, period) == Some(p)
    ensures Reach(whole, floor, p, n).Some?
    decreases n
  {
    hide Hop, Reach;
    if n <= period {
      ReachPrefix(whole, floor, p, n, period);
    } else {
      Cycle(whole, floor, p, period, n - period);
      ReachAdd(whole, floor, p, period, n - period);
    }
  }

  /** Following as many links as there are positions means following links for ever. */
  lemma LongIsEndless(whole: Bytes, floor: Word, p: nat)
    requires floor <= p < |whole|
    requires Reach(whole, floor, p, |whole|).Some?
    ensures Endless(whole, floor, p)
  {
    hide Hop, Reach;
    forall n | 0 <= n <= |whole| ensures Reach(whole, floor, p, n).Some? {
      ReachPrefix(whole, floor, p, n, |whole|);
    }
    var stops: seq<nat> := seq(|whole| + 1, n requires 0 <= n <= |whole| => Reach(whole, floor, p, n).value);
    Pigeonhole(stops, |whole|);
    var i, j :| 0 <= i < j < |stops| && stops[i] == stops[j];
    ReachAdd(whole, floor, p, i, j - i);
    forall n: nat ensures Reach(whole, floor, p, n).Some? {
      Cycle(whole, floor, stops[i], j - i, n);
      ReachAdd(whole, floor, p, i, n);
      ReachPrefix(whole, floor, p, n, i + n);
    }
  }

  /**
   * The budget is exact: the loop error appears if and only if the links never end, then after one kind for
   * each unit of fuel, and no chain yields more than two items beyond the length of the table.
   */
  lemma FuelIsExact(lsda: Lsda, action: NonZero)
    requires ChainStart(lsda, action).Ok?
    ensures var items := Chain(lsda, action).value;
            var start := ChainStart(lsda, action).value;
            && |items| <= |lsda.bytes| + 2
            && (Err(Loop) in items <==> Endless(lsda.bytes, lsda.actionOffset, start))
            && (Err(Loop) in items ==> |items| == |lsda.bytes| + 2 && forall i | 0 <= i < |items| - 1 :: items[i].Ok?)
  {
    hide ChainItems, Hop, Reach;
    var start := ChainStart(lsda, action).value;
    LoopIffReach(lsda.bytes, lsda.actionOffset, start, |lsda.bytes| + 1);
    if Reach(lsda.bytes, lsda.actionOffset, start, |lsda.bytes| + 1).Some? {
      ReachPrefix(lsda.bytes, lsda.actionOffset, start, |lsda.bytes|, |lsda.bytes| + 1);
      LongIsEndless(lsda.bytes, lsda.actionOffset, start);
    }
  }
}
