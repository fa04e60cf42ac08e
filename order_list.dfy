/** The administrator's order table: an address search, a 48-hour countdown per order
    zipped onto the filtered rows, the "checked" switch and its server round trip. */
module OrderList {
  import opened Sequences
  import opened Text
  import BookShop

  /** An order as the server returns it. `date` is the order time in milliseconds since
      the epoch, already parsed. */
  datatype Order = Order(
    id: string,
    name: string,
    email: string,
    address: string,
    date: int,
    cartItems: seq<BookShop.CartItem>,
    checked: bool)

  /** The `timeLeft` field given to a filtered order: a countdown label, or the number 0
      that `timeLeft[index] || 0` falls back to. */
  datatype TimeLeftValue = Zero | Label(text: string)

  /** A filtered order: every field of the order plus its `timeLeft`. */
  datatype Row = Row(order: Order, timeLeft: TimeLeftValue)

  /** The outcome of the PATCH request: the updated order, or a failure (a non-OK status
      or a thrown error), after which only a log line is written. */
  datatype PatchResponse = Updated(order: Order) | Failed

  // ---------------------------------------------------------------------------------------
  // Address search and the timeLeft zip
  // ---------------------------------------------------------------------------------------

  /** The address test: the lower-cased address contains the lower-cased search term. */
  function AddressPredicate(searchTerm: string): Order -> bool
  {
    (o: Order) => Includes(ToLower(o.address), ToLower(searchTerm))
  }

  /** The orders the search term keeps, before `timeLeft` is attached. */
  function MatchingOrders(orders: seq<Order>, searchTerm: string): seq<Order>
  {
    Filter(orders, AddressPredicate(searchTerm))
  }

  /** `timeLeft[index] || 0` for an array of strings: the entry when it exists and is not
      the empty (falsy) string, else 0. */
  function TimeLeftAt(timeLeft: seq<string>, index: nat): TimeLeftValue
  {
    if index < |timeLeft| && timeLeft[index] != "" then Label(timeLeft[index]) else Zero
  }

  /** `filteredOrders`: the matching orders, in order, each given the `timeLeft` entry at
      its own position in the filtered list. */
  function FilteredOrders(orders: seq<Order>, searchTerm: string, timeLeft: seq<string>): seq<Row>
  {
    var kept := MatchingOrders(orders, searchTerm);
    seq(|kept|, i requires 0 <= i < |kept| => Row(kept[i], TimeLeftAt(timeLeft, i)))
  }

  /** The rows of the table are an order-preserving subsequence of the orders, made of
      exactly those whose address matches, and row `k` takes the `timeLeft` entry at `k`. */
  lemma FilteredRowsSpec(orders: seq<Order>, searchTerm: string, timeLeft: seq<string>) returns (idx: seq<nat>)
    ensures var rows := FilteredOrders(orders, searchTerm, timeLeft);
      && |idx| == |rows|
      && (forall k :: 0 <= k < |rows| ==> idx[k] < |orders| && rows[k].order == orders[idx[k]])
      && (forall k, l :: 0 <= k < l < |idx| ==> idx[k] < idx[l])
      && (forall i :: 0 <= i < |orders| ==>
            (i in idx <==> Includes(ToLower(orders[i].address), ToLower(searchTerm))))
      && (forall k :: 0 <= k < |rows| ==>
            rows[k].timeLeft == (if k < |timeLeft| && timeLeft[k] != "" then Label(timeLeft[k]) else Zero))
  {
    idx := FilterEmbedding(orders, AddressPredicate(searchTerm));
  }

  /** Before the first tick `timeLeft` is empty: every row carries 0, and an unchecked
      order's "48 hours" cell reads "0". */
  lemma FirstRenderShowsZero(orders: seq<Order>, searchTerm: string)
    ensures var rows := FilteredOrders(orders, searchTerm, []);
      forall k :: 0 <= k < |rows| ==>
        rows[k].timeLeft == Zero && (!rows[k].order.checked ==> DisplayedTimeLeft(rows[k]) == "0")
  {
  }

  /** The address search keeps an order-preserving subsequence of the orders: exactly those
      whose lower-cased address contains the lower-cased term. */
  lemma AddressSearchSpec(orders: seq<Order>, searchTerm: string) returns (idx: seq<nat>)
    ensures Embedding(idx, MatchingOrders(orders, searchTerm), orders)
    ensures forall i :: 0 <= i < |orders| ==>
      (i in idx <==> Includes(ToLower(orders[i].address), ToLower(searchTerm)))
  {
    idx := FilterEmbedding(orders, AddressPredicate(searchTerm));
  }

  /** An empty search term keeps every order. */
  lemma EmptySearchTermKeepsAll(orders: seq<Order>)
    ensures MatchingOrders(orders, "") == orders
  {
    forall i | 0 <= i < |orders|
      ensures AddressPredicate("")(orders[i])
    {
      IncludesTrivial(ToLower(orders[i].address));
    }
    FilterKeepsAll(orders, AddressPredicate(""));
  }

  /** The search ignores the case of the term's ASCII letters. */
  lemma SearchIgnoresTermCase(orders: seq<Order>, searchTerm: string)
    ensures MatchingOrders(orders, searchTerm) == MatchingOrders(orders, ToLower(searchTerm))
  {
    ToLowerIdempotent(searchTerm);
    FilterCongruence(orders, AddressPredicate(searchTerm), AddressPredicate(ToLower(searchTerm)));
  }

  // ---------------------------------------------------------------------------------------
  // The 48-hour countdown
  // ---------------------------------------------------------------------------------------

  /** 48 hours in milliseconds. */
  const HoldMillis: int := 172800000

  const MillisPerHour: int := 1000 * 60 * 60
  const MillisPerMinute: int := 1000 * 60
  const MillisPerSecond: int := 1000

  /** What one tick computes for an order. */
  datatype Countdown = Expired | Remaining(hours: nat, minutes: nat, seconds: nat)

  /** The milliseconds a remaining countdown stands for, down to whole seconds. */
  function RemainingMillis(hours: nat, minutes: nat, seconds: nat): nat
  {
    hours * MillisPerHour + minutes * MillisPerMinute + seconds * MillisPerSecond
  }

  /** The countdown of an order placed at `orderTime`, seen at `now`. The difference is
      never negative once past the expiry test, so JavaScript's `Math.floor` of a quotient
      and its `%` agree with Dafny's `/` and `%` here. */
  function CountdownAt(orderTime: int, now: int): (c: Countdown)
    ensures c == Expired <==> orderTime + HoldMillis - now < 0
    ensures c.Remaining? ==> c.minutes < 60 && c.seconds < 60
  {
    var timeDiff := orderTime + HoldMillis - now;
    if timeDiff < 0 then Expired
    else
      Remaining(timeDiff / MillisPerHour,
                (timeDiff % MillisPerHour) / MillisPerMinute,
                (timeDiff % MillisPerMinute) / MillisPerSecond)
  }

  /** A live countdown reads the remaining time truncated to whole seconds. */
  lemma CountdownReconstructs(orderTime: int, now: int)
    requires orderTime + HoldMillis - now >= 0
    ensures var c := CountdownAt(orderTime, now);
      var d := orderTime + HoldMillis - now;
      c.Remaining? &&
      RemainingMillis(c.hours, c.minutes, c.seconds) <= d < RemainingMillis(c.hours, c.minutes, c.seconds) + 1000
  {
    var d := orderTime + HoldMillis - now;
    var h, r1 := d / MillisPerHour, d % MillisPerHour;
    var m, r2 := r1 / MillisPerMinute, r1 % MillisPerMinute;
    var s := r2 / MillisPerSecond;
    assert d == h * MillisPerHour + r1;
    assert r1 == m * MillisPerMinute + r2;
    assert d % MillisPerMinute == r2 by {
      assert d == (h * 60 + m) * MillisPerMinute + r2;
    }
    assert r2 == s * MillisPerSecond + r2 % MillisPerSecond;
  }

  /** The expiry boundary: a difference of exactly zero is still live and reads 0h 0m 0s. */
  lemma CountdownAtDeadline(orderTime: int)
    ensures CountdownAt(orderTime, orderTime + HoldMillis) == Remaining(0, 0, 0)
  {
  }

  /** An order seen no earlier than it was placed has at most 48 hours left. */
  lemma CountdownHoursBound(orderTime: int, now: int)
    requires now >= orderTime
    ensures CountdownAt(orderTime, now).Remaining? ==> CountdownAt(orderTime, now).hours <= 48
  {
  }

  /** The label shown for a countdown: `"Expired"` or `${hoursLeft}h ${minutesLeft}m ${secondsLeft}s`. */
  function Render(c: Countdown): string
  {
    match c
    case Expired => "Expired"
    case Remaining(h, m, s) => NatToString(h) + "h " + NatToString(m) + "m " + NatToString(s) + "s"
  }

  /** Every label is a non-empty (truthy) string that starts with 'E' or a digit; in
      particular no label reads "completed". */
  lemma RenderShape(c: Countdown)
    ensures Render(c) != ""
    ensures Render(c)[0] == 'E' || '0' <= Render(c)[0] <= '9'
    ensures Render(c) != "completed"
  {
    if c.Remaining? {
      assert Render(c)[0] == NatToString(c.hours)[0];
    }
  }

  /** Reading the numbers back out of a live label gives the countdown's fields. */
  lemma RenderKeepsFields(h: nat, m: nat, s: nat)
    ensures var shown := Render(Remaining(h, m, s));
      var hs, ms, ss := NatToString(h), NatToString(m), NatToString(s);
      shown == hs + "h " + ms + "m " + ss + "s" &&
      DigitsValue(hs) == h && DigitsValue(ms) == m && DigitsValue(ss) == s
  {
    NatToStringValue(h);
    NatToStringValue(m);
    NatToStringValue(s);
  }

  /** One tick of the interval: the label of each filtered order at time `now`. */
  function Tick(rows: seq<Row>, now: int): (timeLeft: seq<string>)
    ensures |timeLeft| == |rows|
  {
    seq(|rows|, i requires 0 <= i < |rows| => Render(CountdownAt(rows[i].order.date, now)))
  }

  /** After a tick, with the orders and the term unchanged, every filtered row carries the
      countdown of its own order. */
  lemma TickAligns(orders: seq<Order>, searchTerm: string, timeLeft: seq<string>, now: int)
    ensures var rows := FilteredOrders(orders, searchTerm, Tick(FilteredOrders(orders, searchTerm, timeLeft), now));
      |rows| == |MatchingOrders(orders, searchTerm)| &&
      forall i :: 0 <= i < |rows| ==>
        rows[i].order == MatchingOrders(orders, searchTerm)[i] &&
        rows[i].timeLeft == Label(Render(CountdownAt(rows[i].order.date, now)))
  {
    var before := FilteredOrders(orders, searchTerm, timeLeft);
    var labels := Tick(before, now);
    forall i | 0 <= i < |labels|
      ensures labels[i] != ""
    {
      RenderShape(CountdownAt(before[i].order.date, now));
    }
  }

  /** `timeLeft` is matched to the rows by position, not by order. After the term changes,
      and until the next tick, row `k` carries the label the last tick computed for row `k`
      of the old filter, whichever order that was, and 0 past the old row count. */
  lemma TickAfterFilterChange(orders: seq<Order>, oldTerm: string, newTerm: string, timeLeft: seq<string>, now: int)
    ensures var before := MatchingOrders(orders, oldTerm);
      var rows := FilteredOrders(orders, newTerm, Tick(FilteredOrders(orders, oldTerm, timeLeft), now));
      |rows| == |MatchingOrders(orders, newTerm)| &&
      forall k :: 0 <= k < |rows| ==>
        rows[k].order == MatchingOrders(orders, newTerm)[k] &&
        rows[k].timeLeft == (if k < |before| then Label(Render(CountdownAt(before[k].date, now))) else Zero)
  {
    var oldRows := FilteredOrders(orders, oldTerm, timeLeft);
    var labels := Tick(oldRows, now);
    forall i | 0 <= i < |labels|
      ensures labels[i] != ""
    {
      RenderShape(CountdownAt(oldRows[i].order.date, now));
    }
  }

  /** Two orders, one on "main" placed at 0 and one on "elm" placed 100000000 ms later.
      Ticking with the empty term and then searching for "elm" shows the "elm" order
      with the countdown of the "main" order until the next tick; while the "main" order
      is live, that countdown is not the "elm" order's own. */
  lemma StaleLabelExample(o1: Order, o2: Order, now: int)
    requires o1.address == "main" && o1.date == 0
    requires o2.address == "elm" && o2.date == 100000000
    ensures var rows := FilteredOrders([o1, o2], "elm", Tick(FilteredOrders([o1, o2], "", []), now));
      |rows| == 1 && rows[0] == Row(o2, Label(Render(CountdownAt(o1.date, now))))
      && (now <= HoldMillis ==> CountdownAt(o1.date, now) != CountdownAt(o2.date, now))
  {
    var orders := [o1, o2];
    EmptySearchTermKeepsAll(orders);
    assert ToLower("elm") == "elm";
    assert ToLower("main") == "main";
    assert !Includes("main", "elm") by {
      assert !OccursAt("main", "elm", 0) by { assert "main"[0..3] == "mai"; }
      assert !OccursAt("main", "elm", 1) by { assert "main"[1..4] == "ain"; }
    }
    assert Includes("elm", "elm") by { IncludesTrivial("elm"); }
    assert MatchingOrders(orders, "elm") == [o2] by {
      assert orders[..1] == [o1];
      assert Filter(orders[..1], AddressPredicate("elm")) == [];
    }
    TickAfterFilterChange(orders, "", "elm", [], now);
    if now <= HoldMillis {
      LaterOrderMoreHours(0, 100000000, now);
    }
  }

  /** While the earlier order is live, an order placed at least an hour later has more
      hours left. */
  lemma LaterOrderMoreHours(t1: int, t2: int, now: int)
    requires t1 + HoldMillis - now >= 0 && t2 >= t1 + MillisPerHour
    ensures CountdownAt(t2, now).Remaining?
    ensures CountdownAt(t1, now).hours < CountdownAt(t2, now).hours
  {
    var d1, d2 := t1 + HoldMillis - now, t2 + HoldMillis - now;
    assert d1 / MillisPerHour * MillisPerHour <= d1;
    assert d2 >= (d1 / MillisPerHour + 1) * MillisPerHour;
  }

  // ---------------------------------------------------------------------------------------
  // The "checked" switch
  // ---------------------------------------------------------------------------------------

  /** `prevOrders.map(order => order._id === updated._id ? updated : order)`. */
  function ReplaceById(orders: seq<Order>, updated: Order): (r: seq<Order>)
    ensures |r| == |orders|
    decreases |orders|
  {
    if orders == [] then []
    else [if orders[0].id == updated.id then updated else orders[0]] + ReplaceById(orders[1..], updated)
  }

  /** Exactly the orders with the updated order's id are replaced; the others stay. */
  lemma {:induction false} ReplaceByIdAt(orders: seq<Order>, updated: Order)
    ensures forall i :: 0 <= i < |orders| ==>
      ReplaceById(orders, updated)[i] == (if orders[i].id == updated.id then updated else orders[i])
    decreases |orders|
  {
    if orders != [] {
      ReplaceByIdAt(orders[1..], updated);
    }
  }

  /** With no order carrying the id, the list is unchanged. */
  lemma ReplaceByIdNoMatch(orders: seq<Order>, updated: Order)
    requires forall i :: 0 <= i < |orders| ==> orders[i].id != updated.id
    ensures ReplaceById(orders, updated) == orders
  {
    ReplaceByIdAt(orders, updated);
  }

  /** Applying the same server answer twice is the same as applying it once. */
  lemma ReplaceByIdIdempotent(orders: seq<Order>, updated: Order)
    ensures ReplaceById(ReplaceById(orders, updated), updated) == ReplaceById(orders, updated)
  {
    ReplaceByIdAt(orders, updated);
    ReplaceByIdAt(ReplaceById(orders, updated), updated);
  }

  /** The order list after `handleCheckedChange` has its answer. */
  function CheckedChanged(orders: seq<Order>, response: PatchResponse): (r: seq<Order>)
    ensures |r| == |orders|
    ensures forall i :: 0 <= i < |orders| ==>
      r[i] == (if response.Updated? && orders[i].id == response.order.id then response.order else orders[i])
  {
    match response
    case Updated(updated) =>
      ReplaceByIdAt(orders, updated);
      ReplaceById(orders, updated)
    case Failed => orders
  }

  /** When the server confirms the new state of the order at `k` and ids are distinct,
      that order alone changes, and exactly in its `checked` flag. */
  lemma CheckedChangeTogglesOne(orders: seq<Order>, k: nat, checked: bool)
    requires k < |orders|
    requires forall i, j :: 0 <= i < j < |orders| ==> orders[i].id != orders[j].id
    ensures var r := CheckedChanged(orders, Updated(orders[k].(checked := checked)));
      |r| == |orders| && r[k] == orders[k].(checked := checked) &&
      forall i :: 0 <= i < |orders| && i != k ==> r[i] == orders[i]
  {
    ReplaceByIdAt(orders, orders[k].(checked := checked));
  }

  /** The "48 hours" cell: "completed" for a checked order, else its `timeLeft`, where the
      number 0 prints as "0". */
  function DisplayedTimeLeft(row: Row): string
  {
    if row.order.checked then "completed"
    else match row.timeLeft
      case Zero => "0"
      case Label(text) => text
  }

  /** Whenever the timeLeft is 0 or a countdown label, the cell reads "completed" iff the
      order is checked. */
  lemma CompletedIffChecked(row: Row, c: Countdown)
    requires row.timeLeft == Zero || row.timeLeft == Label(Render(c))
    ensures DisplayedTimeLeft(row) == "completed" <==> row.order.checked
  {
    RenderShape(c);
  }
}
