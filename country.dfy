/**
 * The weather histories of the locations of one country, keyed by location name,
 * with insertion, lookup and the search for the location with the largest share of
 * snow. Like the per-location store, the name-keyed map is kept together with its
 * keys in insertion order, the order in which the source iterates it.
 */
module Countries {
  import opened Wrappers
  import opened Lists
  import opened Weather

  class Country {
    const name: string
    var histories: map<string, HistoricalWeather>
    /** The keys of histories in insertion order. */
    var order: seq<string>

    /** Every location is stored under its own name. */
    ghost predicate Valid()
      reads this
    {
      && Distinct(order)
      && (forall k :: k in histories <==> k in order)
      && (forall k :: k in histories ==> histories[k].name == k)
    }

    /** Every location satisfies percentage_snowfall's precondition. */
    ghost predicate AllMeasured()
      reads this, histories.Values
    {
      forall k :: k in histories ==> histories[k].Valid() && histories[k].HasMeasuredFall()
    }

    /** The share of snow at location k, as percentage_snowfall computes it. */
    ghost function Percentage(k: string): real
      reads this, histories.Values
      requires AllMeasured() && k in histories
    {
      SnowFraction(histories[k].order, histories[k].records)
    }

    constructor (name: string)
      ensures this.name == name
      ensures histories == map[] && order == []
      ensures Valid()
    {
      this.name := name;
      histories := map[];
      order := [];
    }

    /** add_history: store hw under its name unless a location of that name is already stored. */
    method AddHistory(hw: HistoricalWeather)
      requires Valid()
      modifies this
      ensures Valid()
      ensures histories == if hw.name in old(histories) then old(histories) else old(histories)[hw.name := hw]
      ensures order == if hw.name in old(histories) then old(order) else old(order) + [hw.name]
    {
      if hw.name !in histories {
        histories := histories[hw.name := hw];
        order := order + [hw.name];
      }
    }

    /** retrieve_history: the stored history of the named location (itself, not a copy), or null. */
    function RetrieveHistory(location: string): (r: HistoricalWeather?)
      reads this
      requires Valid()
      ensures r != null <==> location in order
      ensures r != null ==> r == histories[location] && r.name == location
    {
      if location in histories then histories[location] else null
    }

    /**
     * snowiest_location: None when there are no locations. Otherwise the running
     * maximum starts at ("", 0.0) and is replaced by every location whose share of snow
     * is at least the current maximum, so the last location with the largest share wins
     * a tie, and ("", 0.0) survives only if every share is negative.
     */
    method SnowiestLocation() returns (r: Option<(string, real)>)
      requires Valid() && AllMeasured()
      ensures r.None? <==> |histories| == 0
      ensures r.Some? && (forall k :: k in histories ==> Percentage(k) < 0.0) ==> r.value == ("", 0.0)
      ensures r.Some? && (exists k :: k in histories && Percentage(k) >= 0.0) ==>
        && r.value.0 in histories
        && r.value.1 == Percentage(r.value.0)
        && (forall k :: k in histories ==> Percentage(k) <= r.value.1)
        && (exists i :: 0 <= i < |order| && order[i] == r.value.0 &&
                         forall j :: i < j < |order| ==> Percentage(order[j]) < r.value.1)
    {
      if |histories| == 0 {
        return None;
      }
      var bestName, best, bestAt, shares := RunningMaximum();
      r := Some((bestName, best));
      if bestAt >= 0 {
        LastLargestShare(shares, bestAt);
      } else {
        EveryShareNegative(shares);
      }
    }

    /**
     * snowiest_location's loop: a location replaces the running maximum, which starts
     * at ("", 0.0), when its share is at least the maximum. Also returns where the
     * maximum was found (-1 for the initial one) and every location's share.
     */
    method RunningMaximum() returns (bestName: string, best: real, ghost bestAt: int, ghost shares: seq<real>)
      requires Valid() && AllMeasured()
      ensures |shares| == |order| && forall j {:trigger Percentage(order[j])} :: 0 <= j < |order| ==> shares[j] == Percentage(order[j])
      ensures -1 <= bestAt < |order|
      ensures bestAt == -1 ==> bestName == "" && best == 0.0 && forall j :: 0 <= j < |order| ==> shares[j] < 0.0
      ensures bestAt >= 0 ==> order[bestAt] == bestName && best == shares[bestAt] && best >= 0.0
      ensures bestAt >= 0 ==> forall j :: 0 <= j < |order| ==> shares[j] <= best
      ensures bestAt >= 0 ==> forall j :: bestAt < j < |order| ==> shares[j] < best
    {
      bestName, best := "", 0.0;
      bestAt := -1;
      shares := [];
      for i := 0 to |order|
        invariant |shares| == i
        invariant forall j {:trigger Percentage(order[j])} :: 0 <= j < i ==> shares[j] == Percentage(order[j])
        invariant -1 <= bestAt < i
        invariant bestAt == -1 ==> bestName == "" && best == 0.0
        invariant bestAt == -1 ==> forall j :: 0 <= j < i ==> shares[j] < 0.0
        invariant bestAt >= 0 ==> order[bestAt] == bestName && best == shares[bestAt] && best >= 0.0
        invariant bestAt >= 0 ==> forall j :: 0 <= j < i ==> shares[j] <= best
        invariant bestAt >= 0 ==> forall j :: bestAt < j < i ==> shares[j] < best
      {
        var location := order[i];
        var share := ShareOf(location);
        ExtendShares(shares, i, share);
        shares := shares + [share];
        if share >= best {
          best := share;
          bestName := location;
          bestAt := i;
        }
      }
    }

    /** Appending the share of the next location keeps shares in step with order. */
    lemma ExtendShares(shares: seq<real>, i: int, share: real)
      requires Valid() && AllMeasured()
      requires 0 <= i < |order| && |shares| == i
      requires forall j {:trigger Percentage(order[j])} :: 0 <= j < i ==> shares[j] == Percentage(order[j])
      requires share == Percentage(order[i])
      ensures forall j {:trigger Percentage(order[j])} :: 0 <= j < i + 1 ==> (shares + [share])[j] == Percentage(order[j])
    {
    }

    /** percentage_snowfall of the history stored under location. */
    method ShareOf(location: string) returns (share: real)
      requires Valid() && AllMeasured() && location in histories
      ensures share == Percentage(location)
    {
      share := histories[location].PercentageSnowfall();
    }

    /** Summing up snowiest_location's loop when some share was at least the running maximum. */
    lemma LastLargestShare(shares: seq<real>, at: int)
      requires Valid() && AllMeasured()
      requires |shares| == |order| && forall j {:trigger Percentage(order[j])} :: 0 <= j < |order| ==> shares[j] == Percentage(order[j])
      requires 0 <= at < |order| && shares[at] >= 0.0
      requires forall j :: 0 <= j < |order| ==> shares[j] <= shares[at]
      requires forall j :: at < j < |order| ==> shares[j] < shares[at]
      ensures order[at] in histories && Percentage(order[at]) == shares[at] >= 0.0
      ensures forall k :: k in histories ==> Percentage(k) <= shares[at]
      ensures forall j :: at < j < |order| ==> Percentage(order[j]) < shares[at]
    {
      forall k | k in histories
        ensures Percentage(k) <= shares[at]
      {
        var j :| 0 <= j < |order| && order[j] == k;
        assert shares[j] <= shares[at];
      }
    }

    /** Summing up snowiest_location's loop when no share reached the initial maximum 0.0. */
    lemma EveryShareNegative(shares: seq<real>)
      requires Valid() && AllMeasured()
      requires |shares| == |order| && forall j {:trigger Percentage(order[j])} :: 0 <= j < |order| ==> shares[j] == Percentage(order[j])
      requires forall j :: 0 <= j < |order| ==> shares[j] < 0.0
      ensures forall k :: k in histories ==> Percentage(k) < 0.0
    {
      forall k | k in histories
        ensures Percentage(k) < 0.0
      {
        var j :| 0 <= j < |order| && order[j] == k;
        assert shares[j] < 0.0;
      }
    }
  }
}
