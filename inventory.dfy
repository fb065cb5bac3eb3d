/** utils.py's `merge_items_with_descriptions_from_inventory`: the items of
    an inventory response (a JSON object, or an array of key/value pairs
    turned into a dict first) are merged with the response's descriptions,
    using the game's context id for items that carry none. */
module Inventories {
  import opened Wrappers
  import opened ItemMerge
  import opened GameOptions

  /** A dict that remembers insertion order, as a list of entries. */
  type Entries = seq<(Value, Value)>

  predicate DistinctKeys(d: Entries)
  {
    forall i, j :: 0 <= i < j < |d| ==> d[i].0 != d[j].0
  }

  function KeySet(d: Entries): set<Value>
  {
    set i | 0 <= i < |d| :: d[i].0
  }

  /** `d.values()`, in insertion order. */
  function ValuesOf(d: Entries): (vs: seq<Value>)
    ensures |vs| == |d| && forall i :: 0 <= i < |d| ==> vs[i] == d[i].1
  {
    seq(|d|, i requires 0 <= i < |d| => d[i].1)
  }

  /** `d[k] = v`: an existing key keeps its place and takes the new value; a
      new key goes at the end. */
  function Insert(d: Entries, k: Value, v: Value): (r: Entries)
    requires DistinctKeys(d)
    ensures DistinctKeys(r) && KeySet(r) == KeySet(d) + {k}
    ensures |d| <= |r| && forall i :: 0 <= i < |d| ==> r[i].0 == d[i].0
    ensures exists i :: 0 <= i < |r| && r[i] == (k, v)
    ensures forall i :: 0 <= i < |r| && r[i].0 != k ==> i < |d| && r[i] == d[i]
  {
    if k in KeySet(d) then
      var r := seq(|d|, i requires 0 <= i < |d| => if d[i].0 == k then (k, v) else d[i]);
      assert forall i :: 0 <= i < |d| ==> r[i].0 == d[i].0;
      forall x | x in KeySet(d)
        ensures x in KeySet(r)
      {
        var i :| 0 <= i < |d| && d[i].0 == x;
        assert r[i].0 == x;
      }
      var j :| 0 <= j < |d| && d[j].0 == k;
      assert r[j] == (k, v);
      r
    else
      var r := d + [(k, v)];
      assert forall i :: 0 <= i < |d| ==> r[i] == d[i];
      assert r[|d|] == (k, v);
      forall x | x in KeySet(d)
        ensures x in KeySet(r)
      {
        var i :| 0 <= i < |d| && d[i].0 == x;
        assert r[i].0 == x;
      }
      r
  }

  /** A JSON object with exactly two keys iterates over them in source
      order, which the unordered `Dict` does not keep. */
  predicate TwoKeyObject(v: Value)
  {
    v.Dict? && |v.entries| == 2
  }

  /** One element of `dict(elements)`: it must iterate to exactly two
      values, the key and the value. Lists yield their elements, strings
      their characters and objects their keys; other values are not
      iterable (TypeError), a count other than two raises ValueError, and a
      list or object as the key is unhashable (TypeError). */
  function PairOf(v: Value): (r: Result<(Value, Value)>)
    requires !TwoKeyObject(v)
    ensures r.Ok? ==> Hashable(r.value.0)
    ensures r.Err? ==> r.error == ValueError || r.error == TypeError
  {
    match v
    case List(xs) =>
      if |xs| != 2 then Err(ValueError)
      else if !Hashable(xs[0]) then Err(TypeError)
      else Ok((xs[0], xs[1]))
    case Str(s) => if |s| != 2 then Err(ValueError) else Ok((Str([s[0]]), Str([s[1]])))
    case Dict(_) => Err(ValueError)
    case _ => Err(TypeError)
  }

  predicate Convertible(elements: seq<Value>)
  {
    forall i :: 0 <= i < |elements| ==> !TwoKeyObject(elements[i])
  }

  /** `dict(elements)` from position `i` on, with `acc` the dict built so
      far: the elements are inserted in order and the first that is not a
      pair raises. */
  function DictFrom(elements: seq<Value>, i: nat, acc: Entries): (r: Result<Entries>)
    requires i <= |elements| && Convertible(elements) && DistinctKeys(acc)
    ensures r.Ok? ==> DistinctKeys(r.value)
    decreases |elements| - i
  {
    if i == |elements| then Ok(acc)
    else
      match PairOf(elements[i])
      case Err(e) => Err(e)
      case Ok(p) => DictFrom(elements, i + 1, Insert(acc, p.0, p.1))
  }

  function DictOf(elements: seq<Value>): (r: Result<Entries>)
    requires Convertible(elements)
    ensures r.Ok? ==> DistinctKeys(r.value)
  {
    DictFrom(elements, 0, [])
  }

  /** `dict(elements)` raises exactly when some element is not a pair, and
      then with the error of the first such element. */
  lemma {:induction false} DictFromErrors(elements: seq<Value>, i: nat, acc: Entries)
    requires i <= |elements| && Convertible(elements) && DistinctKeys(acc)
    ensures DictFrom(elements, i, acc).Err? <==> exists j :: i <= j < |elements| && PairOf(elements[j]).Err?
    ensures forall n :: i <= n < |elements| && PairOf(elements[n]).Err? && (forall l :: i <= l < n ==> PairOf(elements[l]).Ok?) ==>
      DictFrom(elements, i, acc) == Err(PairOf(elements[n]).error)
    decreases |elements| - i
  {
    if i < |elements| {
      match PairOf(elements[i])
      case Err(e) =>
        assert DictFrom(elements, i, acc) == Err(e);
      case Ok(p) =>
        var acc' := Insert(acc, p.0, p.1);
        assert DictFrom(elements, i, acc) == DictFrom(elements, i + 1, acc');
        DictFromErrors(elements, i + 1, acc');
        if exists j :: i <= j < |elements| && PairOf(elements[j]).Err? {
          var j :| i <= j < |elements| && PairOf(elements[j]).Err?;
          assert i + 1 <= j;
        }
    }
  }

  /** The keys of the pairs from position `i` on. */
  function PairKeys(elements: seq<Value>, i: nat): (s: set<Value>)
    requires i <= |elements| && Convertible(elements)
    requires forall j :: i <= j < |elements| ==> PairOf(elements[j]).Ok?
  {
    set j | i <= j < |elements| :: PairOf(elements[j]).value.0
  }

  lemma PairKeysStep(elements: seq<Value>, i: nat)
    requires i < |elements| && Convertible(elements)
    requires forall j :: i <= j < |elements| ==> PairOf(elements[j]).Ok?
    ensures PairKeys(elements, i) == {PairOf(elements[i]).value.0} + PairKeys(elements, i + 1)
  {
  }

  /** When every element is a pair, the dict has the keys built so far, in
      their places, followed by the new keys; its keys are exactly those of
      `acc` and of the pairs. */
  lemma {:induction false} DictFromKeys(elements: seq<Value>, i: nat, acc: Entries)
    requires i <= |elements| && Convertible(elements) && DistinctKeys(acc)
    requires forall j :: i <= j < |elements| ==> PairOf(elements[j]).Ok?
    ensures var r := DictFrom(elements, i, acc);
      r.Ok? && |acc| <= |r.value| && (forall q :: 0 <= q < |acc| ==> r.value[q].0 == acc[q].0) &&
      KeySet(r.value) == KeySet(acc) + PairKeys(elements, i)
    decreases |elements| - i
  {
    if i < |elements| {
      var p := PairOf(elements[i]).value;
      var acc' := Insert(acc, p.0, p.1);
      DictFromKeys(elements, i + 1, acc');
      assert DictFrom(elements, i, acc) == DictFrom(elements, i + 1, acc');
      PairKeysStep(elements, i);
    }
  }

  /** No element after position `j` is a pair with the same key. */
  predicate PairLast(elements: seq<Value>, j: nat)
    requires j < |elements| && Convertible(elements)
    requires forall l :: 0 <= l < |elements| ==> PairOf(elements[l]).Ok?
  {
    forall l :: j < l < |elements| ==> PairOf(elements[l]).value.0 != PairOf(elements[j]).value.0
  }

  /** No pair from position `i` on has key `k`. */
  predicate KeyFree(elements: seq<Value>, i: nat, k: Value)
    requires Convertible(elements)
    requires forall l :: 0 <= l < |elements| ==> PairOf(elements[l]).Ok?
  {
    forall l :: i <= l < |elements| ==> PairOf(elements[l]).value.0 != k
  }

  /** An entry built so far survives unless a later pair has its key. */
  lemma {:induction false} DictFromKeeps(elements: seq<Value>, i: nat, acc: Entries, q: nat)
    requires i <= |elements| && Convertible(elements) && DistinctKeys(acc)
    requires forall j :: 0 <= j < |elements| ==> PairOf(elements[j]).Ok?
    requires q < |acc| && KeyFree(elements, i, acc[q].0)
    ensures var r := DictFrom(elements, i, acc);
      r.Ok? && q < |r.value| && r.value[q] == acc[q]
    decreases |elements| - i
  {
    if i < |elements| {
      var p := PairOf(elements[i]).value;
      var acc' := Insert(acc, p.0, p.1);
      assert acc'[q].0 == acc[q].0;
      DictFromKeeps(elements, i + 1, acc', q);
      assert DictFrom(elements, i, acc) == DictFrom(elements, i + 1, acc');
    }
  }

  /** When every element is a pair, each key ends with the value of the
      last pair that has it. */
  lemma {:induction false} DictFromLast(elements: seq<Value>, i: nat, acc: Entries)
    requires i <= |elements| && Convertible(elements) && DistinctKeys(acc)
    requires forall j :: 0 <= j < |elements| ==> PairOf(elements[j]).Ok?
    ensures var r := DictFrom(elements, i, acc);
      r.Ok? && forall j :: i <= j < |elements| && PairLast(elements, j) ==>
        exists q :: 0 <= q < |r.value| && r.value[q] == PairOf(elements[j]).value
    decreases |elements| - i
  {
    if i < |elements| {
      var p := PairOf(elements[i]).value;
      var acc' := Insert(acc, p.0, p.1);
      DictFromLast(elements, i + 1, acc');
      assert DictFrom(elements, i, acc) == DictFrom(elements, i + 1, acc');
      if PairLast(elements, i) {
        var q :| 0 <= q < |acc'| && acc'[q] == p;
        DictFromKeeps(elements, i + 1, acc', q);
      }
    }
  }

  /** `inventory_response['rgInventory']` as decoded: an object (its
      entries in source order), an array, or any other JSON value (a string,
      number, boolean or null). */
  datatype Inventory = Object(entries: Entries) | Array(elements: seq<Value>) | Scalar

  /** The response; None stands for a missing key. The descriptions are
      shared objects that the merge updates. */
  datatype InventoryResponse = InventoryResponse(rgInventory: Option<Inventory>,
                                                 rgDescriptions: Option<map<string, Description>>)

  /** `if isinstance(inventory, list): inventory = dict(inventory)`. */
  function Converted(inventory: Inventory): (r: Result<Inventory>)
    requires inventory.Array? ==> Convertible(inventory.elements)
    ensures r.Ok? ==> !r.value.Array?
  {
    if inventory.Array? then
      match DictOf(inventory.elements)
      case Err(e) => Err(e)
      case Ok(d) => Ok(Object(d))
    else Ok(inventory)
  }

  /** The descriptions the merge may change. */
  function Pool(response: InventoryResponse): set<Description>
  {
    if response.rgDescriptions.Some? then response.rgDescriptions.value.Values else {}
  }

  predicate WellFormed(response: InventoryResponse)
  {
    response.rgInventory.Some? && response.rgInventory.value.Array? ==>
      Convertible(response.rgInventory.value.elements)
  }

  /** What the function returns or raises, and the descriptions afterwards:
      the inventory is read and converted, then the descriptions are read,
      then `.values()` is called, and the items are merged with the game's
      context id as the keyword argument. */
  function MergedInventory(response: InventoryResponse, game: GameOption, heap: Heap): (o: Outcome)
    requires WellFormed(response) && Pool(response) <= heap.Keys
    ensures o.heap.Keys == heap.Keys
  {
    match response.rgInventory
    case None => Outcome(Err(KeyError("rgInventory")), heap)
    case Some(inventory) =>
      match Converted(inventory)
      case Err(e) => Outcome(Err(e), heap)
      case Ok(converted) =>
        if response.rgDescriptions.None? then Outcome(Err(KeyError("rgDescriptions")), heap)
        else if converted.Scalar? then Outcome(Err(AttributeError), heap)
        else Merge(ValuesOf(converted.entries), response.rgDescriptions.value, Some(Str(game.ContextId())), heap)
  }

  method MergeInventory(response: InventoryResponse, game: GameOption) returns (r: Result<map<Value, Description>>)
    requires WellFormed(response)
    modifies Pool(response)
    ensures var o := MergedInventory(response, game, old(Snapshot(Pool(response))));
      r == o.result && Snapshot(Pool(response)) == o.heap
  {
    if response.rgInventory.None? {
      return Err(KeyError("rgInventory"));
    }
    var inventory := response.rgInventory.value;
    if inventory.Array? {
      var d := DictOf(inventory.elements);
      if d.Err? {
        return Err(d.error);
      }
      inventory := Object(d.value);
    }
    assert Converted(response.rgInventory.value) == Ok(inventory);
    if response.rgDescriptions.None? {
      return Err(KeyError("rgDescriptions"));
    }
    var descriptions := response.rgDescriptions.value;
    if inventory.Scalar? {
      return Err(AttributeError);
    }
    r := MergeItems(ValuesOf(inventory.entries), descriptions, Some(Str(game.ContextId())), Pool(response));
  }

  /** When every item merges, each description named last by an item ends
      with that item's context id (or, when the item has none, the game's),
      its id and its amount; its other fields are as they were. */
  lemma InventoryStamps(response: InventoryResponse, game: GameOption, heap: Heap, d: Entries, i: nat)
    requires WellFormed(response) && Pool(response) <= heap.Keys
    requires response.rgInventory.Some? && Converted(response.rgInventory.value) == Ok(Object(d))
    requires response.rgDescriptions.Some?
    requires var ctx := Some(Str(game.ContextId()));
      forall j :: 0 <= j < |d| ==> Mergeable(d[j].1, response.rgDescriptions.value, ctx)
    requires i < |d| && DescriptionLast(ValuesOf(d), response.rgDescriptions.value, Some(Str(game.ContextId())), i)
    ensures var o := MergedInventory(response, game, heap);
      var descs := response.rgDescriptions.value;
      var item := d[i].1;
      var dsc := NamedDescription(item, descs, Some(Str(game.ContextId())));
      var contextId := if "contextid" in item.entries && Truthy(item.entries["contextid"])
                       then item.entries["contextid"] else Str(game.ContextId());
      o.result.Ok? &&
      o.heap[dsc] == heap[dsc]["contextid" := contextId]["id" := MergedId(item, descs, Some(Str(game.ContextId())))]
                              ["amount" := item.entries["amount"]]
  {
    var descs := response.rgDescriptions.value;
    var ctx := Some(Str(game.ContextId()));
    var items := ValuesOf(d);
    MergeResult(items, descs, ctx, heap);
    MergeDescriptions(items, descs, ctx, heap);
    var w := StampOf(items[i], descs, ctx);
    AssignWrites(heap[NamedDescription(items[i], descs, ctx)], w[0].1, w[1].1, w[2].1);
  }

  /** An array inventory merges the values of the dict it converts to: one
      item per distinct key, the last pair's value winning. */
  lemma ArrayInventory(response: InventoryResponse, game: GameOption, heap: Heap)
    requires WellFormed(response) && Pool(response) <= heap.Keys
    requires response.rgInventory.Some? && response.rgInventory.value.Array?
    requires response.rgDescriptions.Some?
    requires var elements := response.rgInventory.value.elements;
      forall j :: 0 <= j < |elements| ==> PairOf(elements[j]).Ok?
    ensures var elements := response.rgInventory.value.elements;
      var d := DictOf(elements);
      d.Ok? && DistinctKeys(d.value) &&
      KeySet(d.value) == PairKeys(elements, 0) &&
      (forall j :: 0 <= j < |elements| && PairLast(elements, j) ==>
        exists q :: 0 <= q < |d.value| && d.value[q] == PairOf(elements[j]).value) &&
      MergedInventory(response, game, heap) ==
        Merge(ValuesOf(d.value), response.rgDescriptions.value, Some(Str(game.ContextId())), heap)
  {
    var elements := response.rgInventory.value.elements;
    DictFromKeys(elements, 0, []);
    DictFromLast(elements, 0, []);
  }
}
