/**
 * The activity histogram of a user: for each calendar day on which the
 * user created a journal, a photo or an entry, how many such records
 * there are. The endpoint counts days in a dictionary, which keeps its
 * keys in the order they were first inserted.
 */
module Activity {
  import opened Records
  import opened Listing

  /** One element of the response: a day and the number of records created on it. */
  datatype ActivityItem = ActivityItem(date: int, count: nat)

  /** How many times `d` occurs in `days`. */
  function CountOf(days: seq<int>, d: int): (n: nat)
    ensures n <= |days|
    ensures n > 0 <==> d in days
  {
    if |days| == 0 then 0
    else
      assert days == days[..|days| - 1] + [days[|days| - 1]];
      CountOf(days[..|days| - 1], d) + (if days[|days| - 1] == d then 1 else 0)
  }

  /** The distinct days of `days`, in the order of their first occurrence. */
  function FirstSeen(days: seq<int>): (r: seq<int>)
    ensures Distinct(r)
    ensures forall d :: d in r <==> d in days
  {
    if |days| == 0 then []
    else
      var f := FirstSeen(days[..|days| - 1]);
      var d := days[|days| - 1];
      assert days == days[..|days| - 1] + [d];
      if d in f then f else f + [d]
  }

  /** The response for the days counted, in the order the dictionary yields them. */
  function Histogram(days: seq<int>): (r: seq<ActivityItem>)
    ensures |r| == |FirstSeen(days)|
    ensures forall i :: 0 <= i < |r| ==> r[i] == ActivityItem(FirstSeen(days)[i], CountOf(days, FirstSeen(days)[i]))
  {
    var f := FirstSeen(days);
    seq(|f|, i requires 0 <= i < |f| => ActivityItem(f[i], CountOf(days, f[i])))
  }

  function SumCounts(items: seq<ActivityItem>): nat {
    if |items| == 0 then 0 else SumCounts(items[..|items| - 1]) + items[|items| - 1].count
  }

  /** Every day occurs once in the response, every count is at least one, and a day is listed exactly when some record falls on it. */
  lemma HistogramShape(days: seq<int>)
    ensures var r := Histogram(days);
      (forall i, j :: 0 <= i < j < |r| ==> r[i].date != r[j].date)
      && (forall i :: 0 <= i < |r| ==> r[i].count >= 1 && r[i].count == CountOf(days, r[i].date))
      && (forall d :: d in days <==> exists i :: 0 <= i < |r| && r[i].date == d)
  {
    var r := Histogram(days);
    var f := FirstSeen(days);
    forall d | d in days ensures exists i :: 0 <= i < |r| && r[i].date == d {
      var i :| 0 <= i < |f| && f[i] == d;
      assert r[i].date == d;
    }
  }

  /** The counts add up to the number of records counted. */
  lemma {:induction false} HistogramSum(days: seq<int>)
    ensures SumCounts(Histogram(days)) == |days|
  {
    var f := FirstSeen(days);
    SumCountsIsSumOver(Histogram(days), f, days);
    SumOverAll(f, days);
  }

  /** `SumOver(f, days)`: the counts in `days` of the days listed in `f`, added up. */
  function SumOver(f: seq<int>, days: seq<int>): nat {
    if |f| == 0 then 0 else SumOver(f[..|f| - 1], days) + CountOf(days, f[|f| - 1])
  }

  lemma {:induction false} SumCountsIsSumOver(items: seq<ActivityItem>, f: seq<int>, days: seq<int>)
    requires |items| == |f|
    requires forall i :: 0 <= i < |f| ==> items[i].count == CountOf(days, f[i])
    ensures SumCounts(items) == SumOver(f, days)
    decreases |f|
  {
    if |f| > 0 {
      SumCountsIsSumOver(items[..|items| - 1], f[..|f| - 1], days);
    }
  }

  /** One more record adds one to the count of its own day and nothing to the others. */
  lemma {:induction false} SumOverSnoc(f: seq<int>, days: seq<int>, x: int)
    ensures SumOver(f, days + [x]) == SumOver(f, days) + CountOf(f, x)
    decreases |f|
  {
    if |f| > 0 {
      SumOverSnoc(f[..|f| - 1], days, x);
      assert (days + [x])[..|days|] == days;
    }
  }

  lemma {:induction false} CountOfDistinct(f: seq<int>, x: int)
    requires Distinct(f) && x in f
    ensures CountOf(f, x) == 1
    decreases |f|
  {
    var g := f[..|f| - 1];
    assert f == g + [f[|f| - 1]];
    if f[|f| - 1] == x {
      assert x !in g;
    } else {
      CountOfDistinct(g, x);
    }
  }

  /** Over a list of distinct days covering every record, the counts add up to the number of records. */
  lemma {:induction false} SumOverAll(f: seq<int>, days: seq<int>)
    requires Distinct(f)
    requires forall d :: d in days ==> d in f
    ensures SumOver(f, days) == |days|
    decreases |days|
  {
    if |days| == 0 {
      SumOverEmpty(f);
    } else {
      var init := days[..|days| - 1];
      var x := days[|days| - 1];
      assert days == init + [x];
      SumOverAll(f, init);
      SumOverSnoc(f, init, x);
      CountOfDistinct(f, x);
    }
  }

  lemma {:induction false} SumOverEmpty(f: seq<int>)
    ensures SumOver(f, []) == 0
    decreases |f|
  {
    if |f| > 0 {
      SumOverEmpty(f[..|f| - 1]);
    }
  }

  /** Counting the concatenation of two lists of days counts each list. */
  lemma {:induction false} CountOfConcat(a: seq<int>, b: seq<int>, d: int)
    ensures CountOf(a + b, d) == CountOf(a, d) + CountOf(b, d)
    decreases |b|
  {
    if |b| == 0 {
      assert a + b == a;
    } else {
      var b' := b[..|b| - 1];
      assert a + b == (a + b') + [b[|b| - 1]];
      assert (a + b)[..|a + b| - 1] == a + b';
      CountOfConcat(a, b', d);
    }
  }

  /**
   * The dictionary loop of `get_user_activities`: each day adds one to its
   * entry, and a day seen for the first time becomes a new, last key. The
   * dictionary is the map `counts` with its key order `order`.
   */
  method CountDays(days: seq<int>) returns (counts: map<int, nat>, order: seq<int>)
    ensures order == FirstSeen(days)
    ensures forall d :: d in counts <==> d in days
    ensures forall d :: d in counts ==> counts[d] == CountOf(days, d)
  {
    counts := map[];
    order := [];
    var i := 0;
    while i < |days|
      invariant 0 <= i <= |days|
      invariant order == FirstSeen(days[..i])
      invariant forall d :: d in counts <==> d in order
      invariant forall d :: d in counts ==> counts[d] == CountOf(days[..i], d)
    {
      var d := days[i];
      assert days[..i + 1][..i] == days[..i];
      if d in counts {
        counts := counts[d := counts[d] + 1];
      } else {
        counts := counts[d := 1];
        order := order + [d];
      }
      i := i + 1;
    }
    assert days[..i] == days;
  }

  /** `get_user_activities` after the counting: one response item per key, in key order. */
  method Tally(days: seq<int>) returns (items: seq<ActivityItem>)
    ensures items == Histogram(days)
  {
    var counts, order := CountDays(days);
    assert forall d :: d in days ==> d in counts;
    items := [];
    var k := 0;
    while k < |order|
      invariant 0 <= k <= |order|
      invariant |items| == k
      invariant forall j :: 0 <= j < k ==> items[j] == Histogram(days)[j]
    {
      assert order[k] in days;
      assert order[k] in counts;
      items := items + [ActivityItem(order[k], counts[order[k]])];
      k := k + 1;
    }
  }

  /** The owner and creation time of a journal, photo or entry. */
  datatype Stamp = Stamp(owner: Uuid, created: Time)

  /** The records of `m` owned by `uid`. */
  function Owned(m: map<Uuid, Stamp>, uid: Uuid): set<Uuid> {
    set id | id in m && m[id].owner == uid
  }

  /** The records of `m` owned by `uid` and created on day `d`. */
  function OwnedOn(m: map<Uuid, Stamp>, uid: Uuid, d: int): set<Uuid> {
    set id | id in m && m[id].owner == uid && DayOf(m[id].created) == d
  }

  /** `Owned` and `OwnedOn` restricted to the keys listed in `ids`. */
  function OwnedIn(m: map<Uuid, Stamp>, uid: Uuid, ids: seq<Uuid>): set<Uuid> {
    set id | id in ids && id in m && m[id].owner == uid
  }

  function OwnedOnIn(m: map<Uuid, Stamp>, uid: Uuid, d: int, ids: seq<Uuid>): set<Uuid> {
    set id | id in ids && id in m && m[id].owner == uid && DayOf(m[id].created) == d
  }

  /** `days` holds one day per record of `uid` among the keys `ids`. */
  ghost predicate DaysFor(m: map<Uuid, Stamp>, uid: Uuid, ids: seq<Uuid>, days: seq<int>) {
    |days| == |OwnedIn(m, uid, ids)|
    && forall d :: CountOf(days, d) == |OwnedOnIn(m, uid, d, ids)|
  }

  /** Listing one more key adds the day of that record when `uid` owns it. */
  lemma DaysStep(m: map<Uuid, Stamp>, uid: Uuid, ids: seq<Uuid>, i: nat, days: seq<int>)
    requires i < |ids| && ids[i] in m && ids[i] !in ids[..i]
    requires DaysFor(m, uid, ids[..i], days)
    ensures DaysFor(m, uid, ids[..i + 1],
                    if m[ids[i]].owner == uid then days + [DayOf(m[ids[i]].created)] else days)
  {
    assert ids[..i + 1] == ids[..i] + [ids[i]];
    if m[ids[i]].owner == uid {
      DaysStepOwned(m, uid, ids[..i], ids[i], days);
    } else {
      DaysStepOther(m, uid, ids[..i], ids[i], days);
    }
  }

  lemma DaysStepOwned(m: map<Uuid, Stamp>, uid: Uuid, ids: seq<Uuid>, id: Uuid, days: seq<int>)
    requires id in m && id !in ids && m[id].owner == uid
    requires DaysFor(m, uid, ids, days)
    ensures DaysFor(m, uid, ids + [id], days + [DayOf(m[id].created)])
  {
    var day := DayOf(m[id].created);
    var next := days + [day];
    assert OwnedIn(m, uid, ids + [id]) == OwnedIn(m, uid, ids) + {id};
    assert next[..|days|] == days;
    forall d ensures CountOf(next, d) == |OwnedOnIn(m, uid, d, ids + [id])| {
      if day == d {
        assert OwnedOnIn(m, uid, d, ids + [id]) == OwnedOnIn(m, uid, d, ids) + {id};
      } else {
        assert OwnedOnIn(m, uid, d, ids + [id]) == OwnedOnIn(m, uid, d, ids);
      }
    }
  }

  lemma DaysStepOther(m: map<Uuid, Stamp>, uid: Uuid, ids: seq<Uuid>, id: Uuid, days: seq<int>)
    requires id in m && m[id].owner != uid
    requires DaysFor(m, uid, ids, days)
    ensures DaysFor(m, uid, ids + [id], days)
  {
    assert OwnedIn(m, uid, ids + [id]) == OwnedIn(m, uid, ids);
    forall d ensures OwnedOnIn(m, uid, d, ids + [id]) == OwnedOnIn(m, uid, d, ids) {
    }
  }

  /**
   * The query `filter(model.user_id == user_id).all()` followed by the
   * day of each result: one day per record of `uid`, so each day occurs
   * as often as there are such records created on it.
   */
  method UserDays(m: map<Uuid, Stamp>, uid: Uuid) returns (days: seq<int>)
    ensures |days| == |Owned(m, uid)|
    ensures forall d :: CountOf(days, d) == |OwnedOn(m, uid, d)|
  {
    var ids := ScanKeys(m);
    days := [];
    var i := 0;
    assert DaysFor(m, uid, ids[..0], days) by {
      assert ids[..0] == [];
      assert OwnedIn(m, uid, []) == {};
      forall d ensures OwnedOnIn(m, uid, d, []) == {} {
      }
    }
    while i < |ids|
      invariant 0 <= i <= |ids|
      invariant DaysFor(m, uid, ids[..i], days)
    {
      var id := ids[i];
      assert id !in ids[..i];
      DaysStep(m, uid, ids, i, days);
      if m[id].owner == uid {
        days := days + [DayOf(m[id].created)];
      }
      i := i + 1;
    }
    assert ids[..i] == ids;
    assert OwnedIn(m, uid, ids) == Owned(m, uid);
    forall d ensures OwnedOnIn(m, uid, d, ids) == OwnedOn(m, uid, d) {
    }
  }
}
