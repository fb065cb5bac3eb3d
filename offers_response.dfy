/** utils.py's `merge_items_with_descriptions_from_offers`: the descriptions
    of a trade-offers response are indexed by their key, then every received
    offer and every sent offer is merged against that index, and the two
    offer lists are stored back into the response. */
module OfferResponses {
  import opened Wrappers
  import opened ItemMerge
  import opened Offers

  /** The description key of `ds[j]` as the descriptions stand in `heap`. */
  function KeyAt(ds: seq<Description>, heap: Heap, j: nat): Result<string>
    requires j < |ds| && ds[j] in heap
  {
    DescriptionKey(heap[ds[j]])
  }

  predicate Listed(ds: seq<Description>, heap: Heap)
  {
    forall j :: 0 <= j < |ds| ==> ds[j] in heap
  }

  /** The dict comprehension `{get_description_key(d): d for d in ds}` from
      position `i` on, with `m` the dict built so far: a later description
      with the same key replaces an earlier one, and the first key that
      cannot be built raises. */
  function IndexFrom(ds: seq<Description>, heap: Heap, i: nat, m: map<string, Description>)
    : (r: Result<map<string, Description>>)
    requires i <= |ds| && Listed(ds, heap) && m.Values <= heap.Keys
    ensures r.Ok? ==> r.value.Values <= heap.Keys
    decreases |ds| - i
  {
    if i == |ds| then Ok(m)
    else
      match KeyAt(ds, heap, i)
      case Err(e) => Err(e)
      case Ok(k) => IndexFrom(ds, heap, i + 1, m[k := ds[i]])
  }

  function Index(ds: seq<Description>, heap: Heap): (r: Result<map<string, Description>>)
    requires Listed(ds, heap)
    ensures r.Ok? ==> r.value.Values <= heap.Keys
  {
    IndexFrom(ds, heap, 0, map[])
  }

  /** The comprehension raises exactly when some description has no key,
      and then with the error of the first such description. */
  lemma {:induction false} IndexFromErrors(ds: seq<Description>, heap: Heap, i: nat, m: map<string, Description>)
    requires i <= |ds| && Listed(ds, heap) && m.Values <= heap.Keys
    ensures IndexFrom(ds, heap, i, m).Err? <==> exists j :: i <= j < |ds| && KeyAt(ds, heap, j).Err?
    ensures IndexFrom(ds, heap, i, m).Err? ==>
      exists j :: i <= j < |ds| && KeyAt(ds, heap, j).Err? &&
        IndexFrom(ds, heap, i, m).error == KeyAt(ds, heap, j).error &&
        forall l :: i <= l < j ==> KeyAt(ds, heap, l).Ok?
    decreases |ds| - i
  {
    if i < |ds| && KeyAt(ds, heap, i).Ok? {
      IndexFromErrors(ds, heap, i + 1, m[KeyAt(ds, heap, i).value := ds[i]]);
    }
  }

  /** No description after position `j` has the same key. */
  predicate KeyLast(ds: seq<Description>, heap: Heap, j: nat)
    requires Listed(ds, heap) && j < |ds|
  {
    forall l :: j < l < |ds| ==> KeyAt(ds, heap, l) != KeyAt(ds, heap, j)
  }

  /** No description from position `i` on has key `k`. */
  predicate Unclaimed(ds: seq<Description>, heap: Heap, i: nat, k: string)
    requires Listed(ds, heap)
  {
    forall j :: i <= j < |ds| ==> KeyAt(ds, heap, j) != Ok(k)
  }

  /** When every key can be built, the dict holds the keys built so far and
      every later key. */
  lemma {:induction false} IndexFromKeys(ds: seq<Description>, heap: Heap, i: nat, m: map<string, Description>)
    requires i <= |ds| && Listed(ds, heap) && m.Values <= heap.Keys
    requires forall j :: i <= j < |ds| ==> KeyAt(ds, heap, j).Ok?
    ensures var r := IndexFrom(ds, heap, i, m);
      r.Ok? && r.value.Keys == m.Keys + (set j | i <= j < |ds| :: KeyAt(ds, heap, j).value)
    decreases |ds| - i
  {
    if i < |ds| {
      var k := KeyAt(ds, heap, i).value;
      IndexFromKeys(ds, heap, i + 1, m[k := ds[i]]);
      assert (set j | i <= j < |ds| :: KeyAt(ds, heap, j).value) ==
             {k} + (set j | i + 1 <= j < |ds| :: KeyAt(ds, heap, j).value);
    }
  }

  /** An entry built so far survives unless a later description claims its
      key. */
  lemma {:induction false} IndexFromKeeps(ds: seq<Description>, heap: Heap, i: nat, m: map<string, Description>,
                                          k: string)
    requires i <= |ds| && Listed(ds, heap) && m.Values <= heap.Keys
    requires forall j :: i <= j < |ds| ==> KeyAt(ds, heap, j).Ok?
    requires k in m && Unclaimed(ds, heap, i, k)
    ensures var r := IndexFrom(ds, heap, i, m);
      r.Ok? && k in r.value && r.value[k] == m[k]
    decreases |ds| - i
  {
    if i < |ds| {
      IndexFromKeeps(ds, heap, i + 1, m[KeyAt(ds, heap, i).value := ds[i]], k);
    }
  }

  /** One step of the comprehension, for a description with a key. */
  lemma IndexFromStep(ds: seq<Description>, heap: Heap, i: nat, m: map<string, Description>)
    requires i < |ds| && Listed(ds, heap) && m.Values <= heap.Keys && KeyAt(ds, heap, i).Ok?
    ensures IndexFrom(ds, heap, i, m) == IndexFrom(ds, heap, i + 1, m[KeyAt(ds, heap, i).value := ds[i]])
  {
  }

  /** A description whose key no later one has is what its key names. */
  lemma {:induction false} IndexFromAt(ds: seq<Description>, heap: Heap, i: nat, m: map<string, Description>, j: nat)
    requires i <= j < |ds| && Listed(ds, heap) && m.Values <= heap.Keys
    requires forall l :: i <= l < |ds| ==> KeyAt(ds, heap, l).Ok?
    requires KeyLast(ds, heap, j)
    ensures var r := IndexFrom(ds, heap, i, m);
      r.Ok? && KeyAt(ds, heap, j).value in r.value && r.value[KeyAt(ds, heap, j).value] == ds[j]
    decreases j - i
  {
    var m' := m[KeyAt(ds, heap, i).value := ds[i]];
    IndexFromStep(ds, heap, i, m);
    if i == j {
      IndexFromKeeps(ds, heap, i + 1, m', KeyAt(ds, heap, j).value);
    } else {
      IndexFromAt(ds, heap, i + 1, m', j);
    }
  }

  /** When every key can be built, each key names the last description
      with it. */
  lemma IndexFromLast(ds: seq<Description>, heap: Heap, i: nat, m: map<string, Description>)
    requires i <= |ds| && Listed(ds, heap) && m.Values <= heap.Keys
    requires forall j :: i <= j < |ds| ==> KeyAt(ds, heap, j).Ok?
    ensures var r := IndexFrom(ds, heap, i, m);
      r.Ok? && forall j :: i <= j < |ds| && KeyLast(ds, heap, j) ==>
        KeyAt(ds, heap, j).value in r.value && r.value[KeyAt(ds, heap, j).value] == ds[j]
  {
    IndexFromKeys(ds, heap, i, m);
    forall j | i <= j < |ds| && KeyLast(ds, heap, j)
      ensures KeyAt(ds, heap, j).value in IndexFrom(ds, heap, i, m).value
      ensures IndexFrom(ds, heap, i, m).value[KeyAt(ds, heap, j).value] == ds[j]
    {
      IndexFromAt(ds, heap, i, m, j);
    }
  }

  /** The loop that builds the comprehension's dict. */
  method BuildIndex(ds: seq<Description>) returns (r: Result<map<string, Description>>)
    ensures Listed(ds, Snapshot(Members(ds)))
    ensures r == Index(ds, Snapshot(Members(ds)))
  {
    ghost var heap := Snapshot(Members(ds));
    var m := map[];
    var i := 0;
    while i < |ds|
      invariant i <= |ds| && m.Values <= heap.Keys
      invariant Index(ds, heap) == IndexFrom(ds, heap, i, m)
    {
      var key := DescriptionKey(ds[i].fields);
      if key.Err? {
        return Err(key.error);
      }
      m := m[key.value := ds[i]];
      i := i + 1;
    }
    return Ok(m);
  }

  /** `offers_response['response']`: the list of descriptions and the two
      offer lists, each possibly missing. */
  class OffersResponse {
    var descriptions: Option<seq<Description>>
    var received: Option<seq<Offer>>
    var sent: Option<seq<Offer>>
  }

  datatype ResponseState = ResponseState(descriptions: Option<seq<Description>>, received: Option<seq<Offer>>,
                                         sent: Option<seq<Offer>>)

  function StateOfResponse(response: OffersResponse): ResponseState
    reads response
  {
    ResponseState(response.descriptions, response.received, response.sent)
  }

  /** `d.get(key, [])`. */
  function OrEmpty<T>(list: Option<seq<T>>): seq<T>
  {
    if list.Some? then list.value else []
  }

  /** Every offer either list of a response holds. */
  function OffersOf(st: ResponseState): set<Offer>
  {
    Members(OrEmpty(st.received)) + Members(OrEmpty(st.sent))
  }

  datatype ResponseOutcome = ResponseOutcome(result: Result<()>, response: ResponseState, heap: Heap,
                                             states: map<Offer, OfferState>)

  /** `response['trade_offers_received'] = list(map(..., received))`: the
      received offers are merged in order and, when none raises, the list
      is stored (a missing one as the empty list). */
  function ReceivedPhase(st: ResponseState, descs: map<string, Description>, heap: Heap,
                         states: map<Offer, OfferState>): (o: ResponseOutcome)
    requires descs.Values <= heap.Keys && OffersOf(st) <= states.Keys
    ensures o.heap.Keys == heap.Keys && o.states.Keys == states.Keys && o.response.sent == st.sent
  {
    var received := OrEmpty(st.received);
    var a := MergedOffers(received, descs, heap, states);
    ResponseOutcome(a.result, if a.result.Ok? then st.(received := Some(received)) else st, a.heap, a.states)
  }

  /** The same for `response['trade_offers_sent']`. */
  function SentPhase(st: ResponseState, descs: map<string, Description>, heap: Heap,
                     states: map<Offer, OfferState>): (o: ResponseOutcome)
    requires descs.Values <= heap.Keys && OffersOf(st) <= states.Keys
    ensures o.heap.Keys == heap.Keys && o.states.Keys == states.Keys && o.response.received == st.received
  {
    var sent := OrEmpty(st.sent);
    var b := MergedOffers(sent, descs, heap, states);
    ResponseOutcome(b.result, if b.result.Ok? then st.(sent := Some(sent)) else st, b.heap, b.states)
  }

  /** Merging both offer lists of a response against the index `descs`:
      the received offers first, then the sent ones. Both lists are read
      before either is merged; storing the received list does not change
      the sent one. An exception leaves the list being built unassigned,
      with every earlier merge in place. */
  function MergedLists(st: ResponseState, descs: map<string, Description>, heap: Heap,
                       states: map<Offer, OfferState>): (o: ResponseOutcome)
    requires descs.Values <= heap.Keys && OffersOf(st) <= states.Keys
    ensures o.heap.Keys == heap.Keys && o.states.Keys == states.Keys
  {
    var p := ReceivedPhase(st, descs, heap, states);
    if p.result.Err? then p
    else
      assert OffersOf(p.response) <= OffersOf(st);
      SentPhase(p.response, descs, p.heap, p.states)
  }

  /** `merge_items_with_descriptions_from_offers` on the response: the index
      of descriptions is built first, and an error there changes nothing. */
  function MergedResponse(st: ResponseState, heap: Heap, states: map<Offer, OfferState>): (o: ResponseOutcome)
    requires Listed(OrEmpty(st.descriptions), heap)
    requires OffersOf(st) <= states.Keys
    ensures o.heap.Keys == heap.Keys && o.states.Keys == states.Keys
  {
    match Index(OrEmpty(st.descriptions), heap)
    case Err(e) => ResponseOutcome(Err(e), st, heap, states)
    case Ok(descs) => MergedLists(st, descs, heap, states)
  }

  /** Every object the merge may change: the response, its descriptions and
      its offers. */
  function Footprint(response: OffersResponse): set<object>
    reads response
  {
    {response} + Members(OrEmpty(response.descriptions)) + OffersOf(StateOfResponse(response))
  }

  /** The assignment of the received list. */
  method MergeReceived(response: OffersResponse, descs: map<string, Description>, ghost all: set<Offer>,
                       ghost pool: set<Description>)
    returns (r: Result<()>)
    requires OffersOf(StateOfResponse(response)) <= all && descs.Values <= pool
    modifies response, Members(OrEmpty(response.received)), descs.Values
    ensures var o := ReceivedPhase(old(StateOfResponse(response)), descs, old(Snapshot(pool)), old(States(all)));
      r == o.result && StateOfResponse(response) == o.response && Snapshot(pool) == o.heap &&
      States(all) == o.states
  {
    var received := OrEmpty(response.received);
    r := MergeOfferList(received, descs, all, pool);
    if r.Ok? {
      response.received := Some(received);
    }
  }

  /** The assignment of the sent list. */
  method MergeSent(response: OffersResponse, descs: map<string, Description>, ghost all: set<Offer>,
                   ghost pool: set<Description>)
    returns (r: Result<()>)
    requires OffersOf(StateOfResponse(response)) <= all && descs.Values <= pool
    modifies response, Members(OrEmpty(response.sent)), descs.Values
    ensures var o := SentPhase(old(StateOfResponse(response)), descs, old(Snapshot(pool)), old(States(all)));
      r == o.result && StateOfResponse(response) == o.response && Snapshot(pool) == o.heap &&
      States(all) == o.states
  {
    var sent := OrEmpty(response.sent);
    r := MergeOfferList(sent, descs, all, pool);
    if r.Ok? {
      response.sent := Some(sent);
    }
  }

  /** The two `list(map(...))` assignments on the response. */
  method MergeLists(response: OffersResponse, descs: map<string, Description>, ghost all: set<Offer>,
                    ghost pool: set<Description>)
    returns (r: Result<()>)
    requires OffersOf(StateOfResponse(response)) <= all && descs.Values <= pool
    modifies response, OffersOf(StateOfResponse(response)), descs.Values
    ensures var o := MergedLists(old(StateOfResponse(response)), descs, old(Snapshot(pool)), old(States(all)));
      r == o.result && StateOfResponse(response) == o.response && Snapshot(pool) == o.heap &&
      States(all) == o.states
  {
    r := MergeReceived(response, descs, all, pool);
    if r.Ok? {
      r := MergeSent(response, descs, all, pool);
    }
  }

  /** The whole function on `offers_response`; None stands for a dict
      without the `response` key, which raises KeyError before anything
      changes. */
  method MergeOffersResponse(response: Option<OffersResponse>) returns (r: Result<()>)
    modifies if response.Some? then Footprint(response.value) else {}
    ensures response.None? ==> r == Err(KeyError("response"))
    ensures response.Some? ==>
      var st := old(StateOfResponse(response.value));
      var ds := Members(OrEmpty(st.descriptions));
      var o := MergedResponse(st, old(Snapshot(ds)), old(States(OffersOf(st))));
      r == o.result && StateOfResponse(response.value) == o.response &&
      Snapshot(ds) == o.heap && States(OffersOf(st)) == o.states
  {
    if response.None? {
      return Err(KeyError("response"));
    }
    var resp := response.value;
    ghost var st := StateOfResponse(resp);
    ghost var pool := Members(OrEmpty(st.descriptions));
    ghost var all := OffersOf(st);
    ghost var heap, states := Snapshot(pool), States(all);
    var index := BuildIndex(OrEmpty(resp.descriptions));
    assert Snapshot(pool) == heap && States(all) == states;
    if index.Err? {
      assert MergedResponse(st, heap, states) == ResponseOutcome(Err(index.error), st, heap, states);
      return Err(index.error);
    }
    assert MergedResponse(st, heap, states) == MergedLists(st, index.value, heap, states);
    r := MergeLists(resp, index.value, all, pool);
  }

  /** What holds of every listed offer holds of every member. */
  lemma EveryMember(offers: seq<Offer>, before: map<Offer, OfferState>, after: map<Offer, OfferState>,
                    descs: map<string, Description>)
    requires forall i :: 0 <= i < |offers| ==>
      offers[i] in before && offers[i] in after && OfferMergedFrom(before[offers[i]], after[offers[i]], descs)
    ensures forall x :: x in Members(offers) ==> x in before && x in after && OfferMergedFrom(before[x], after[x], descs)
  {
    forall x | x in Members(offers)
      ensures x in before && x in after && OfferMergedFrom(before[x], after[x], descs)
    {
      var i :| 0 <= i < |offers| && offers[i] == x;
    }
  }

  /** When both lists merge, both are present and hold the offers they held
      before, and every one of those offers ends with its two item lists
      replaced by dicts keyed by exactly the ids of the items it held, its
      other entries kept. An offer in both lists is merged once: the second
      merge only succeeds on empty dicts, which it leaves as they are. */
  lemma ListsMerged(st: ResponseState, descs: map<string, Description>, heap: Heap, states: map<Offer, OfferState>)
    requires descs.Values <= heap.Keys && OffersOf(st) <= states.Keys
    ensures var o := MergedLists(st, descs, heap, states);
      o.result.Ok? ==>
        o.response == ResponseState(st.descriptions, Some(OrEmpty(st.received)), Some(OrEmpty(st.sent))) &&
        forall x :: x in OffersOf(st) ==> OfferMergedFrom(states[x], o.states[x], descs)
  {
    var received := OrEmpty(st.received);
    var sent := OrEmpty(st.sent);
    var a := MergedOffers(received, descs, heap, states);
    if a.result.Ok? {
      MergedOffersContents(received, descs, heap, states);
      MergedOffersUntouched(received, descs, heap, states);
      EveryMember(received, states, a.states, descs);
      var b := MergedOffers(sent, descs, a.heap, a.states);
      if b.result.Ok? {
        MergedOffersContents(sent, descs, a.heap, a.states);
        MergedOffersStable(sent, descs, a.heap, a.states);
        EveryMember(sent, a.states, b.states, descs);
        forall x | x in OffersOf(st)
          ensures OfferMergedFrom(states[x], b.states[x], descs)
        {
          if x in Members(received) {
            assert BothMerged(a.states[x]);
          }
        }
      }
    }
  }

  /** When the response merges, both lists are present and hold the offers
      they held before, and every one of those offers ends with its two item
      lists replaced by dicts keyed by exactly the ids of the items it held,
      against the index of the response's descriptions. */
  lemma ResponseMerged(st: ResponseState, heap: Heap, states: map<Offer, OfferState>)
    requires Listed(OrEmpty(st.descriptions), heap)
    requires OffersOf(st) <= states.Keys
    ensures var o := MergedResponse(st, heap, states);
      o.result.Ok? ==>
        Index(OrEmpty(st.descriptions), heap).Ok? &&
        o.response == ResponseState(st.descriptions, Some(OrEmpty(st.received)), Some(OrEmpty(st.sent))) &&
        forall x :: x in OffersOf(st) ==> OfferMergedFrom(states[x], o.states[x], Index(OrEmpty(st.descriptions), heap).value)
  {
    var index := Index(OrEmpty(st.descriptions), heap);
    if index.Ok? {
      ListsMerged(st, index.value, heap, states);
    }
  }

  /** A description without a key makes the response raise before any offer
      or description changes. */
  lemma ResponseIndexError(st: ResponseState, heap: Heap, states: map<Offer, OfferState>, j: nat)
    requires Listed(OrEmpty(st.descriptions), heap)
    requires OffersOf(st) <= states.Keys
    requires j < |OrEmpty(st.descriptions)| && KeyAt(OrEmpty(st.descriptions), heap, j).Err?
    ensures var o := MergedResponse(st, heap, states);
      o.result.Err? && o.response == st && o.heap == heap && o.states == states
  {
    IndexFromErrors(OrEmpty(st.descriptions), heap, 0, map[]);
  }

  /** Whatever happens, no offer's entries other than the two item lists
      change. */
  lemma ResponseKeepsOthers(st: ResponseState, heap: Heap, states: map<Offer, OfferState>)
    requires Listed(OrEmpty(st.descriptions), heap)
    requires OffersOf(st) <= states.Keys
    ensures var o := MergedResponse(st, heap, states);
      forall x :: x in states ==> o.states[x].others == states[x].others
  {
    var index := Index(OrEmpty(st.descriptions), heap);
    if index.Ok? {
      var descs := index.value;
      var a := MergedOffers(OrEmpty(st.received), descs, heap, states);
      MergedOffersKeepOthers(OrEmpty(st.received), descs, heap, states);
      if a.result.Ok? {
        MergedOffersKeepOthers(OrEmpty(st.sent), descs, a.heap, a.states);
      }
    }
  }
}
