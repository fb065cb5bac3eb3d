/** utils.py's `merge_items_with_descriptions_from_offer` and
    `merge_items_with_descriptions_from_offers`: the item lists of every
    received and sent trade offer are replaced by the dicts `merge_items`
    builds from them, using the descriptions listed in the response. */
module Offers {
  import opened Wrappers
  import opened ItemMerge

  /** The value under `items_to_give` or `items_to_receive`: as decoded from
      the response, or the dict `merge_items` stored there. */
  datatype Slot = Raw(value: Value) | Merged(items: map<Value, Description>)

  /** A trade offer dict. The merge reassigns its two item lists; its other
      keys are kept in `others`. */
  class Offer {
    var itemsToGive: Option<Slot>
    var itemsToReceive: Option<Slot>
    var others: map<string, Value>
  }

  /** An offer's entries: the two the merge reassigns (None stands for a
      missing key) and the rest. */
  datatype OfferState = OfferState(give: Option<Slot>, receive: Option<Slot>, others: map<string, Value>)

  function StateOf(offer: Offer): OfferState
    reads offer
  {
    OfferState(offer.itemsToGive, offer.itemsToReceive, offer.others)
  }

  /** The objects a list holds. */
  function Members<T>(xs: seq<T>): (s: set<T>)
    ensures forall i :: 0 <= i < |xs| ==> xs[i] in s
  {
    set x | x in xs
  }

  function States(offers: set<Offer>): (m: map<Offer, OfferState>)
    reads offers
    ensures m.Keys == offers
  {
    map o | o in offers :: StateOf(o)
  }

  /** The items `merge_items` iterates over for `offer.get(key, [])`. A
      missing key gives the empty list. Iterating a non-empty string or dict
      (a merged one included) yields strings or ids, and subscripting one of
      those in `get_description_key` raises TypeError before anything is
      written; numbers, booleans and None are not iterable (TypeError). */
  function SlotItems(slot: Option<Slot>): (r: Result<seq<Value>>)
    ensures r.Err? ==> r.error == TypeError
  {
    match slot
    case None => Ok([])
    case Some(Merged(m)) => if m == map[] then Ok([]) else Err(TypeError)
    case Some(Raw(v)) =>
      match v
      case List(xs) => Ok(xs)
      case Str(s) => if s == "" then Ok([]) else Err(TypeError)
      case Dict(m) => if m == map[] then Ok([]) else Err(TypeError)
      case _ => Err(TypeError)
  }

  datatype SlotOutcome = SlotOutcome(result: Result<map<Value, Description>>, heap: Heap)

  /** `merge_items(offer.get(key, []), descriptions)`: no context id is
      passed. */
  function MergedSlot(slot: Option<Slot>, descs: map<string, Description>, heap: Heap): (o: SlotOutcome)
    requires descs.Values <= heap.Keys
    ensures o.heap.Keys == heap.Keys
  {
    match SlotItems(slot)
    case Err(e) => SlotOutcome(Err(e), heap)
    case Ok(items) =>
      var m := Merge(items, descs, None, heap);
      SlotOutcome(m.result, m.heap)
  }

  method MergeSlot(slot: Option<Slot>, descs: map<string, Description>, ghost pool: set<Description>)
    returns (r: Result<map<Value, Description>>)
    requires descs.Values <= pool
    modifies descs.Values
    ensures var o := MergedSlot(slot, descs, old(Snapshot(pool)));
      r == o.result && Snapshot(pool) == o.heap
  {
    var items := SlotItems(slot);
    if items.Err? {
      return Err(items.error);
    }
    r := MergeItems(items.value, descs, None, pool);
  }

  datatype OfferOutcome = OfferOutcome(result: Result<OfferState>, heap: Heap)

  /** `merge_items_with_descriptions_from_offer(offer, descriptions)`: the
      items to give are merged first, then the items to receive; only when
      both succeed are the two entries reassigned. */
  function MergedOffer(st: OfferState, descs: map<string, Description>, heap: Heap): (o: OfferOutcome)
    requires descs.Values <= heap.Keys
    ensures o.heap.Keys == heap.Keys
    ensures o.result.Ok? ==> BothMerged(o.result.value) && o.result.value.others == st.others
  {
    var g := MergedSlot(st.give, descs, heap);
    if g.result.Err? then OfferOutcome(Err(g.result.error), g.heap)
    else
      var r := MergedSlot(st.receive, descs, g.heap);
      if r.result.Err? then OfferOutcome(Err(r.result.error), r.heap)
      else OfferOutcome(Ok(st.(give := Some(Merged(g.result.value)), receive := Some(Merged(r.result.value)))), r.heap)
  }

  /** The offer dict, updated in place; it is also the result. */
  method MergeOffer(offer: Offer, descs: map<string, Description>, ghost pool: set<Description>)
    returns (r: Result<Offer>)
    requires descs.Values <= pool
    modifies offer, descs.Values
    ensures var o := MergedOffer(old(StateOf(offer)), descs, old(Snapshot(pool)));
      Snapshot(pool) == o.heap &&
      r == (if o.result.Ok? then Ok(offer) else Err(o.result.error)) &&
      StateOf(offer) == (if o.result.Ok? then o.result.value else old(StateOf(offer)))
  {
    var give := MergeSlot(offer.itemsToGive, descs, pool);
    if give.Err? {
      return Err(give.error);
    }
    var receive := MergeSlot(offer.itemsToReceive, descs, pool);
    if receive.Err? {
      return Err(receive.error);
    }
    offer.itemsToGive := Some(Merged(give.value));
    offer.itemsToReceive := Some(Merged(receive.value));
    return Ok(offer);
  }

  /** An offer without item lists, or with empty ones, ends with two empty
      dicts and changes no description. */
  lemma MergedOfferEmpty(others: map<string, Value>, descs: map<string, Description>, heap: Heap)
    requires descs.Values <= heap.Keys
    ensures MergedOffer(OfferState(None, None, others), descs, heap) ==
      OfferOutcome(Ok(OfferState(Some(Merged(map[])), Some(Merged(map[])), others)), heap)
    ensures MergedOffer(OfferState(Some(Raw(List([]))), Some(Raw(List([]))), others), descs, heap) ==
      OfferOutcome(Ok(OfferState(Some(Merged(map[])), Some(Merged(map[])), others)), heap)
  {
  }

  /** With lists of mergeable items, the offer ends with two dicts keyed by
      exactly the ids of the items to give and to receive, its other entries
      as they were. */
  lemma MergedOfferKeys(give: seq<Value>, receive: seq<Value>, others: map<string, Value>,
                        descs: map<string, Description>, heap: Heap)
    requires descs.Values <= heap.Keys
    requires forall i :: 0 <= i < |give| ==> Mergeable(give[i], descs, None)
    requires forall i :: 0 <= i < |receive| ==> Mergeable(receive[i], descs, None)
    ensures var o := MergedOffer(OfferState(Some(Raw(List(give))), Some(Raw(List(receive))), others), descs, heap);
      o.result.Ok? && o.result.value.others == others &&
      o.result.value.give.Some? && o.result.value.give.value.Merged? &&
      o.result.value.give.value.items.Keys == (set i | 0 <= i < |give| :: MergedId(give[i], descs, None)) &&
      o.result.value.receive.Some? && o.result.value.receive.value.Merged? &&
      o.result.value.receive.value.items.Keys == (set i | 0 <= i < |receive| :: MergedId(receive[i], descs, None))
  {
    MergeResult(give, descs, None, heap);
    var g := Merge(give, descs, None, heap);
    MergeResult(receive, descs, None, g.heap);
  }

  /** Merging an offer a second time raises TypeError as soon as a merged
      dict is non-empty, and writes nothing. */
  lemma MergedOfferTwice(m: map<Value, Description>, receive: Option<Slot>, others: map<string, Value>,
                         descs: map<string, Description>, heap: Heap)
    requires descs.Values <= heap.Keys && m != map[]
    ensures MergedOffer(OfferState(Some(Merged(m)), receive, others), descs, heap) == OfferOutcome(Err(TypeError), heap)
  {
  }

  /** Both item lists of the offer hold a dict built by `merge_items`. */
  predicate BothMerged(st: OfferState)
  {
    st.give.Some? && st.give.value.Merged? && st.receive.Some? && st.receive.value.Merged?
  }

  datatype ListOutcome = ListOutcome(result: Result<()>, heap: Heap, states: map<Offer, OfferState>)

  /** `list(map(lambda offer: merge_items_with_descriptions_from_offer(...),
      offers))`: the offers are merged in order, stopping at the first
      exception. */
  function MergedOffers(offers: seq<Offer>, descs: map<string, Description>, heap: Heap,
                        states: map<Offer, OfferState>): (o: ListOutcome)
    requires descs.Values <= heap.Keys
    requires forall i :: 0 <= i < |offers| ==> offers[i] in states
    ensures o.heap.Keys == heap.Keys && o.states.Keys == states.Keys
    decreases |offers|
  {
    if offers == [] then ListOutcome(Ok(()), heap, states)
    else
      var m := MergedOffer(states[offers[0]], descs, heap);
      match m.result
      case Err(e) => ListOutcome(Err(e), m.heap, states)
      case Ok(st) => MergedOffers(offers[1..], descs, m.heap, states[offers[0] := st])
  }

  /** Two maps that agree everywhere except at `k` differ by an update. */
  lemma PointUpdate<K, V>(after: map<K, V>, before: map<K, V>, k: K)
    requires after.Keys == before.Keys && k in after
    requires forall x :: x in after && x != k ==> after[x] == before[x]
    ensures after == before[k := after[k]]
  {
  }

  /** One step of the list. */
  lemma MergedOffersStep(offers: seq<Offer>, i: nat, descs: map<string, Description>, heap: Heap,
                         states: map<Offer, OfferState>)
    requires descs.Values <= heap.Keys && i < |offers|
    requires forall j :: 0 <= j < |offers| ==> offers[j] in states
    ensures MergedOffers(offers[i..], descs, heap, states) ==
      var m := MergedOffer(states[offers[i]], descs, heap);
      match m.result
      case Err(e) => ListOutcome(Err(e), m.heap, states)
      case Ok(st) => MergedOffers(offers[i + 1..], descs, m.heap, states[offers[i] := st])
  {
    assert offers[i..][0] == offers[i] && offers[i..][1..] == offers[i + 1..];
  }

  /** Offer `i` of the list merged in place: only its own entries and the
      descriptions change, as one step of `MergedOffers` says. */
  method MergeListed(offers: seq<Offer>, i: nat, descs: map<string, Description>, ghost all: set<Offer>,
                     ghost pool: set<Description>)
    returns (r: Result<Offer>)
    requires i < |offers| && Members(offers) <= all && descs.Values <= pool
    modifies offers[i], descs.Values
    ensures var before := MergedOffers(offers[i..], descs, old(Snapshot(pool)), old(States(all)));
      match r
      case Err(e) => before == ListOutcome(Err(e), Snapshot(pool), States(all))
      case Ok(_) => before == MergedOffers(offers[i + 1..], descs, Snapshot(pool), States(all))
  {
    MergedOffersStep(offers, i, descs, Snapshot(pool), States(all));
    ghost var pre := States(all);
    r := MergeOffer(offers[i], descs, pool);
    forall x | x in all && x != offers[i]
      ensures States(all)[x] == pre[x]
    {
    }
    PointUpdate(States(all), pre, offers[i]);
  }

  /** The list-building loop: each offer is merged in place, in order.
      `all` holds every offer whose state is tracked, these among them. */
  method MergeOfferList(offers: seq<Offer>, descs: map<string, Description>, ghost all: set<Offer>,
                        ghost pool: set<Description>)
    returns (r: Result<()>)
    requires Members(offers) <= all && descs.Values <= pool
    modifies Members(offers), descs.Values
    ensures var out := MergedOffers(offers, descs, old(Snapshot(pool)), old(States(all)));
      r == out.result && Snapshot(pool) == out.heap && States(all) == out.states
  {
    var i := 0;
    while i < |offers|
      invariant 0 <= i <= |offers|
      invariant MergedOffers(offers, descs, old(Snapshot(pool)), old(States(all)))
        == MergedOffers(offers[i..], descs, Snapshot(pool), States(all))
    {
      var merged := MergeListed(offers, i, descs, all, pool);
      if merged.Err? {
        return Err(merged.error);
      }
      i := i + 1;
    }
    assert offers[i..] == [];
    return Ok(());
  }

  /** Offers the list does not hold keep their state. */
  lemma {:induction false} MergedOffersUntouched(offers: seq<Offer>, descs: map<string, Description>, heap: Heap,
                                                 states: map<Offer, OfferState>)
    requires descs.Values <= heap.Keys
    requires forall i :: 0 <= i < |offers| ==> offers[i] in states
    ensures var o := MergedOffers(offers, descs, heap, states);
      forall x :: x in states && x !in Members(offers) ==> o.states[x] == states[x]
    decreases |offers|
  {
    if offers != [] {
      var m := MergedOffer(states[offers[0]], descs, heap);
      if m.result.Ok? {
        var rest := offers[1..];
        assert forall i :: 0 <= i < |rest| ==> rest[i] == offers[i + 1];
        assert Members(rest) <= Members(offers);
        MergedOffersUntouched(rest, descs, m.heap, states[offers[0] := m.result.value]);
      }
    }
  }

  /** An offer whose item lists are both merged stays so. */
  lemma {:induction false} MergedOffersKeepMerged(offers: seq<Offer>, descs: map<string, Description>, heap: Heap,
                                                  states: map<Offer, OfferState>)
    requires descs.Values <= heap.Keys
    requires forall i :: 0 <= i < |offers| ==> offers[i] in states
    ensures var o := MergedOffers(offers, descs, heap, states);
      forall x :: x in states && BothMerged(states[x]) ==> BothMerged(o.states[x])
    decreases |offers|
  {
    if offers != [] {
      var m := MergedOffer(states[offers[0]], descs, heap);
      if m.result.Ok? {
        var rest := offers[1..];
        assert forall i :: 0 <= i < |rest| ==> rest[i] == offers[i + 1];
        MergedOffersKeepMerged(rest, descs, m.heap, states[offers[0] := m.result.value]);
      }
    }
  }

  /** The ids `merge_items` keys its dict by: for each mergeable item its
      `id`, or its `assetid` when the id is missing or falsy. */
  function ItemIds(items: seq<Value>, descs: map<string, Description>): set<Value>
  {
    set i | 0 <= i < |items| && Mergeable(items[i], descs, None) :: MergedId(items[i], descs, None)
  }

  /** `after` holds the dict `merge_items` built from the items `before`
      held: every one of them was mergeable, and the dict is keyed by
      exactly their ids. */
  predicate SlotMergedFrom(before: Option<Slot>, after: Option<Slot>, descs: map<string, Description>)
  {
    SlotItems(before).Ok? &&
    (forall i :: 0 <= i < |SlotItems(before).value| ==> Mergeable(SlotItems(before).value[i], descs, None)) &&
    after.Some? && after.value.Merged? && after.value.items.Keys == ItemIds(SlotItems(before).value, descs)
  }

  /** Offer state `after` is `before` with both item lists merged and its
      other entries kept. */
  predicate OfferMergedFrom(before: OfferState, after: OfferState, descs: map<string, Description>)
  {
    SlotMergedFrom(before.give, after.give, descs) && SlotMergedFrom(before.receive, after.receive, descs) &&
    after.others == before.others
  }

  /** A successful merge of one item list builds a dict keyed by exactly
      the ids of the items it held. */
  lemma MergedSlotKeys(slot: Option<Slot>, descs: map<string, Description>, heap: Heap)
    requires descs.Values <= heap.Keys
    ensures var o := MergedSlot(slot, descs, heap);
      o.result.Ok? ==> SlotMergedFrom(slot, Some(Merged(o.result.value)), descs)
  {
    var items := SlotItems(slot);
    if items.Ok? {
      MergeErrors(items.value, descs, None, heap);
      if forall i :: 0 <= i < |items.value| ==> Mergeable(items.value[i], descs, None) {
        MergeResult(items.value, descs, None, heap);
      }
    }
  }

  /** A successful merge of an offer replaces each item list by the dict
      keyed by exactly the ids of its items, and keeps the other entries. */
  lemma MergedOfferContents(st: OfferState, descs: map<string, Description>, heap: Heap)
    requires descs.Values <= heap.Keys
    ensures var o := MergedOffer(st, descs, heap);
      o.result.Ok? ==> OfferMergedFrom(st, o.result.value, descs)
  {
    var g := MergedSlot(st.give, descs, heap);
    MergedSlotKeys(st.give, descs, heap);
    if g.result.Ok? {
      MergedSlotKeys(st.receive, descs, g.heap);
    }
  }

  /** Merging an offer whose item lists are both merged succeeds only when
      both dicts are empty, and then changes nothing. */
  lemma MergedOfferStable(st: OfferState, descs: map<string, Description>, heap: Heap)
    requires descs.Values <= heap.Keys && BothMerged(st)
    ensures var o := MergedOffer(st, descs, heap);
      o.result.Ok? ==>
        st.give == Some(Merged(map[])) && st.receive == Some(Merged(map[])) && o.result.value == st && o.heap == heap
  {
  }

  /** When the whole list merges, an offer whose item lists were both merged
      before keeps its state, even when the list holds it. */
  lemma {:induction false} MergedOffersStable(offers: seq<Offer>, descs: map<string, Description>, heap: Heap,
                                              states: map<Offer, OfferState>)
    requires descs.Values <= heap.Keys
    requires forall i :: 0 <= i < |offers| ==> offers[i] in states
    ensures var o := MergedOffers(offers, descs, heap, states);
      o.result.Ok? ==> forall x :: x in states && BothMerged(states[x]) ==> o.states[x] == states[x]
    decreases |offers|
  {
    if offers != [] {
      var m := MergedOffer(states[offers[0]], descs, heap);
      if m.result.Ok? {
        var rest := offers[1..];
        assert forall i :: 0 <= i < |rest| ==> rest[i] == offers[i + 1];
        if BothMerged(states[offers[0]]) {
          MergedOfferStable(states[offers[0]], descs, heap);
        }
        MergedOffersStable(rest, descs, m.heap, states[offers[0] := m.result.value]);
      }
    }
  }

  /** When the whole list merges, every offer in it ends with its two item
      lists replaced by dicts keyed by exactly the ids of the items it held
      before, and its other entries kept. */
  lemma {:induction false} MergedOffersContents(offers: seq<Offer>, descs: map<string, Description>, heap: Heap,
                                                states: map<Offer, OfferState>)
    requires descs.Values <= heap.Keys
    requires forall i :: 0 <= i < |offers| ==> offers[i] in states
    ensures var o := MergedOffers(offers, descs, heap, states);
      o.result.Ok? ==> forall i :: 0 <= i < |offers| ==> OfferMergedFrom(states[offers[i]], o.states[offers[i]], descs)
    decreases |offers|
  {
    if offers != [] {
      var st := states[offers[0]];
      var m := MergedOffer(st, descs, heap);
      if m.result.Ok? {
        var rest := offers[1..];
        var states' := states[offers[0] := m.result.value];
        var o := MergedOffers(rest, descs, m.heap, states');
        assert forall i :: 0 <= i < |rest| ==> rest[i] == offers[i + 1];
        MergedOfferContents(st, descs, heap);
        MergedOffersContents(rest, descs, m.heap, states');
        MergedOffersStable(rest, descs, m.heap, states');
        forall i | 0 <= i < |offers| && o.result.Ok?
          ensures OfferMergedFrom(states[offers[i]], o.states[offers[i]], descs)
        {
          if offers[i] != offers[0] {
            assert offers[i] == rest[i - 1];
          }
        }
      }
    }
  }

  /** Merged or not, no offer's other entries change. */
  lemma {:induction false} MergedOffersKeepOthers(offers: seq<Offer>, descs: map<string, Description>, heap: Heap,
                                                  states: map<Offer, OfferState>)
    requires descs.Values <= heap.Keys
    requires forall i :: 0 <= i < |offers| ==> offers[i] in states
    ensures var o := MergedOffers(offers, descs, heap, states);
      forall x :: x in states ==> o.states[x].others == states[x].others
    decreases |offers|
  {
    if offers != [] {
      var m := MergedOffer(states[offers[0]], descs, heap);
      if m.result.Ok? {
        var rest := offers[1..];
        assert forall i :: 0 <= i < |rest| ==> rest[i] == offers[i + 1];
        MergedOffersKeepOthers(rest, descs, m.heap, states[offers[0] := m.result.value]);
      }
    }
  }
}
