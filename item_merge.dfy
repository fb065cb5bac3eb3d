/** utils.py's `get_description_key` and `merge_items`: every trade item is
    joined with the description dict stored under its class and instance id,
    and that description dict is updated in place with the item's context id,
    id and amount. */
module ItemMerge {
  import opened Wrappers

  /** A value as Python's json module decodes it (floats left out). */
  datatype Value =
    | Null
    | Bool(b: bool)
    | Int(i: int)
    | Str(s: string)
    | List(elems: seq<Value>)
    | Dict(entries: map<string, Value>)

  /** Python's truth value, as used by `x or y`. */
  predicate Truthy(v: Value)
  {
    match v
    case Null => false
    case Bool(b) => b
    case Int(i) => i != 0
    case Str(s) => s != ""
    case List(xs) => xs != []
    case Dict(m) => m != map[]
  }

  /** Lists and dicts cannot be dict keys. */
  predicate Hashable(v: Value)
  {
    !v.List? && !v.Dict?
  }

  type Fields = map<string, Value>

  /** A description dict: one object, shared by every item that names it. */
  class Description {
    var fields: Fields

    constructor (fields: Fields)
      ensures this.fields == fields
    {
      this.fields := fields;
    }
  }

  /** The fields of every description, as they stand at one moment. */
  type Heap = map<Description, Fields>

  function Snapshot(ds: set<Description>): (h: Heap)
    reads ds
    ensures h.Keys == ds
  {
    map d | d in ds :: d.fields
  }

  /** `item['classid'] + '_' + item['instanceid']` on a dict. A missing key
      raises KeyError; a non-string id makes `+` raise TypeError. The class id
      is checked before the instance id is read. */
  function DescriptionKey(item: Fields): Result<string>
  {
    if "classid" !in item then Err(KeyError("classid"))
    else if !item["classid"].Str? then Err(TypeError)
    else if "instanceid" !in item then Err(KeyError("instanceid"))
    else if !item["instanceid"].Str? then Err(TypeError)
    else Ok(item["classid"].s + "_" + item["instanceid"].s)
  }

  /** `get_description_key(item)`: subscripting anything but a dict with a
      string raises TypeError. */
  function GetDescriptionKey(item: Value): (r: Result<string>)
    ensures r.Ok? <==>
      item.Dict? && "classid" in item.entries && item.entries["classid"].Str? &&
      "instanceid" in item.entries && item.entries["instanceid"].Str?
    ensures r.Ok? ==> r.value == item.entries["classid"].s + "_" + item.entries["instanceid"].s
    ensures !item.Dict? ==> r == Err(TypeError)
    ensures item.Dict? && "classid" !in item.entries ==> r == Err(KeyError("classid"))
    ensures item.Dict? && "classid" in item.entries && !item.entries["classid"].Str? ==> r == Err(TypeError)
    ensures item.Dict? && "classid" in item.entries && item.entries["classid"].Str? ==>
      ("instanceid" !in item.entries ==> r == Err(KeyError("instanceid"))) &&
      ("instanceid" in item.entries && !item.entries["instanceid"].Str? ==> r == Err(TypeError))
  {
    if item.Dict? then DescriptionKey(item.entries) else Err(TypeError)
  }

  /** A class id without '_' can be read back from the key, so the key
      names the pair of ids exactly. */
  lemma DescriptionKeySplit(item: Fields, classId: string, instanceId: string)
    requires "classid" in item && item["classid"] == Str(classId)
    requires "instanceid" in item && item["instanceid"] == Str(instanceId)
    requires forall i :: 0 <= i < |classId| ==> classId[i] != '_'
    ensures
      var key := DescriptionKey(item);
      key.Ok? && |classId| < |key.value| && key.value[|classId|] == '_' &&
      key.value[..|classId|] == classId && key.value[|classId| + 1..] == instanceId
  {
    var key := classId + "_" + instanceId;
    assert key[..|classId|] == classId;
    assert key[|classId| + 1..] == instanceId;
  }

  lemma FirstUnderscore(key: string, n: nat, m: nat)
    requires n < |key| && key[n] == '_' && forall i :: 0 <= i < n ==> key[i] != '_'
    requires m < |key| && key[m] == '_' && forall i :: 0 <= i < m ==> key[i] != '_'
    ensures n == m
  {
  }

  lemma DescriptionKeyInjective(c1: string, i1: string, c2: string, i2: string)
    requires forall i :: 0 <= i < |c1| ==> c1[i] != '_'
    requires forall i :: 0 <= i < |c2| ==> c2[i] != '_'
    requires c1 + "_" + i1 == c2 + "_" + i2
    ensures c1 == c2 && i1 == i2
  {
    var key := c1 + "_" + i1;
    assert key[|c1|] == '_' && forall i :: 0 <= i < |c1| ==> key[i] == c1[i];
    assert key[|c2|] == '_' && forall i :: 0 <= i < |c2| ==> key[i] == c2[i];
    FirstUnderscore(key, |c1|, |c2|);
    assert c1 == key[..|c1|] && c2 == key[..|c2|];
    assert i1 == key[|c1| + 1..] && i2 == key[|c2| + 1..];
  }

  /** `item.get('id') or item['assetid']`. */
  function ItemId(item: Fields): Result<Value>
  {
    if "id" in item && Truthy(item["id"]) then Ok(item["id"])
    else if "assetid" in item then Ok(item["assetid"])
    else Err(KeyError("assetid"))
  }

  /** `item.get('contextid') or kwargs['context_id']`; `contextId` is the
      keyword argument, None when the caller passed none. */
  function ContextIdFor(item: Fields, contextId: Option<Value>): Result<Value>
  {
    if "contextid" in item && Truthy(item["contextid"]) then Ok(item["contextid"])
    else if contextId.Some? then Ok(contextId.value)
    else Err(KeyError("context_id"))
  }

  /** The three assignments the loop body makes to a description, in order. */
  function Stamp(contextId: Value, id: Value, amount: Value): seq<(string, Value)>
  {
    [("contextid", contextId), ("id", id), ("amount", amount)]
  }

  /** What one iteration of the loop does: the description it writes to,
      the assignments it completes, and either the id the description is
      stored under or the exception that ends the loop. */
  datatype Effect = Effect(target: Option<Description>, writes: seq<(string, Value)>, outcome: Result<Value>)

  /** One iteration. Errors in the order Python meets them: the key, the
      lookup, the item id, the context id (before any write), the amount
      (after the first two writes) and an unhashable id (after all three). */
  function ItemEffect(item: Value, descs: map<string, Description>, contextId: Option<Value>): (e: Effect)
    ensures Settled(e, descs.Values)
  {
    match GetDescriptionKey(item)
    case Err(err) => Effect(None, [], Err(err))
    case Ok(key) =>
      if key !in descs then Effect(None, [], Err(KeyError(key)))
      else
        var d := descs[key];
        var fields := item.entries;
        match ItemId(fields)
        case Err(err) => Effect(None, [], Err(err))
        case Ok(id) =>
          match ContextIdFor(fields, contextId)
          case Err(err) => Effect(None, [], Err(err))
          case Ok(c) =>
            if "amount" !in fields then
              Effect(Some(d), [("contextid", c), ("id", id)], Err(KeyError("amount")))
            else
              Effect(Some(d), Stamp(c, id, fields["amount"]), if Hashable(id) then Ok(id) else Err(TypeError))
  }

  /** The item is a dict with string class and instance ids naming a
      description, an id or asset id, a context id (its own or the keyword
      argument), an amount, and a hashable id. */
  predicate Mergeable(item: Value, descs: map<string, Description>, contextId: Option<Value>)
  {
    GetDescriptionKey(item).Ok? && GetDescriptionKey(item).value in descs &&
    ItemId(item.entries).Ok? && ContextIdFor(item.entries, contextId).Ok? &&
    "amount" in item.entries && Hashable(ItemId(item.entries).value)
  }

  /** The id a mergeable item is stored under. */
  function MergedId(item: Value, descs: map<string, Description>, contextId: Option<Value>): Value
    requires Mergeable(item, descs, contextId)
  {
    ItemId(item.entries).value
  }

  /** The description a mergeable item names. */
  function NamedDescription(item: Value, descs: map<string, Description>, contextId: Option<Value>): Description
    requires Mergeable(item, descs, contextId)
  {
    descs[GetDescriptionKey(item).value]
  }

  /** The assignments a mergeable item makes: its context id, id and amount. */
  function StampOf(item: Value, descs: map<string, Description>, contextId: Option<Value>): seq<(string, Value)>
    requires Mergeable(item, descs, contextId)
  {
    Stamp(ContextIdFor(item.entries, contextId).value, ItemId(item.entries).value, item.entries["amount"])
  }

  /** When an item raises, and which description and assignments a
      completed iteration has. */
  lemma ItemEffectMeaning(item: Value, descs: map<string, Description>, contextId: Option<Value>)
    ensures GetDescriptionKey(item).Ok? && GetDescriptionKey(item).value !in descs ==>
      ItemEffect(item, descs, contextId) == Effect(None, [], Err(KeyError(GetDescriptionKey(item).value)))
    ensures ItemEffect(item, descs, contextId).outcome.Ok? <==> Mergeable(item, descs, contextId)
    ensures Mergeable(item, descs, contextId) ==>
      ItemEffect(item, descs, contextId) ==
        Effect(Some(NamedDescription(item, descs, contextId)), StampOf(item, descs, contextId),
               Ok(MergedId(item, descs, contextId)))
  {
  }

  /** The dict after the assignments `fields[k] = v`, in order. */
  function Assign(fields: Fields, writes: seq<(string, Value)>): Fields
    decreases |writes|
  {
    if writes == [] then fields else Assign(fields[writes[0].0 := writes[0].1], writes[1..])
  }

  /** The assignments of a loop body that stops at the amount, and of one
      that completes. */
  lemma AssignWrites(fields: Fields, contextId: Value, id: Value, amount: Value)
    ensures Assign(fields, [("contextid", contextId), ("id", id)]) == fields["contextid" := contextId]["id" := id]
    ensures Assign(fields, Stamp(contextId, id, amount)) == fields["contextid" := contextId]["id" := id]["amount" := amount]
  {
    var f1 := fields["contextid" := contextId];
    var f2 := f1["id" := id];
    var w := Stamp(contextId, id, amount);
    assert w[1..] == [("id", id), ("amount", amount)] && w[1..][1..] == [("amount", amount)];
    assert Assign(f2, w[1..][1..]) == f2["amount" := amount];
    assert Assign(fields, w) == Assign(f1, w[1..]) == Assign(f2, w[1..][1..]);
    var v := [("contextid", contextId), ("id", id)];
    assert v[1..] == [("id", id)];
    assert Assign(f2, v[1..][1..]) == f2;
    assert Assign(fields, v) == Assign(f1, v[1..]) == Assign(f2, v[1..][1..]);
  }

  function Apply(heap: Heap, e: Effect): (h: Heap)
    requires e.target.Some? ==> e.target.value in heap
    ensures h.Keys == heap.Keys
  {
    if e.target.Some? then heap[e.target.value := Assign(heap[e.target.value], e.writes)] else heap
  }

  datatype Outcome = Outcome(result: Result<map<Value, Description>>, heap: Heap)

  /** The three names assigned by a loop body that completes. */
  predicate IsStamp(writes: seq<(string, Value)>)
  {
    |writes| == 3 && writes[0].0 == "contextid" && writes[1].0 == "id" && writes[2].0 == "amount"
  }

  /** An effect writes only to a description among `keys`, and a completed
      one stores its description after the three assignments. */
  predicate Settled(e: Effect, keys: set<Description>)
  {
    (e.target.Some? ==> e.target.value in keys) &&
    (e.target.None? ==> e.writes == []) &&
    (e.outcome.Ok? ==> e.target.Some? && IsStamp(e.writes))
  }

  predicate AllSettled(effects: seq<Effect>, keys: set<Description>)
  {
    forall i :: 0 <= i < |effects| ==> Settled(effects[i], keys)
  }

  /** The loop over the items' effects: the dict built so far is `merged`;
      the loop stops at the first exception, keeping the assignments already
      made. */
  function Run(effects: seq<Effect>, heap: Heap, merged: map<Value, Description>): (o: Outcome)
    requires AllSettled(effects, heap.Keys)
    ensures o.heap.Keys == heap.Keys
    decreases |effects|
  {
    if effects == [] then Outcome(Ok(merged), heap)
    else
      var e := effects[0];
      var heap' := Apply(heap, e);
      assert AllSettled(effects[1..], heap'.Keys) by {
        assert forall i :: 0 <= i < |effects[1..]| ==> effects[1..][i] == effects[i + 1];
      }
      match e.outcome
      case Err(err) => Outcome(Err(err), heap')
      case Ok(id) => Run(effects[1..], heap', merged[id := e.target.value])
  }

  /** The effect of each item, in order. */
  function Effects(items: seq<Value>, descs: map<string, Description>, contextId: Option<Value>): (es: seq<Effect>)
    ensures |es| == |items| && AllSettled(es, descs.Values)
  {
    seq(|items|, i requires 0 <= i < |items| => ItemEffect(items[i], descs, contextId))
  }

  /** What `merge_items(items, descriptions, context_id=...)` returns or
      raises, and the descriptions' fields afterwards. */
  function Merge(items: seq<Value>, descs: map<string, Description>, contextId: Option<Value>, heap: Heap): (o: Outcome)
    requires descs.Values <= heap.Keys
    ensures o.heap.Keys == heap.Keys
  {
    Run(Effects(items, descs, contextId), heap, map[])
  }

  /** The loop ends with an exception when some item raises one, and the
      exception is that of the first such item. */
  lemma {:induction false} RunError(effects: seq<Effect>, heap: Heap, merged: map<Value, Description>)
    requires AllSettled(effects, heap.Keys)
    ensures !AllOk(effects) ==> Run(effects, heap, merged).result.Err?
    ensures forall n :: 0 <= n < |effects| && effects[n].outcome.Err? && (forall j :: 0 <= j < n ==> effects[j].outcome.Ok?) ==>
      Run(effects, heap, merged).result == Err(effects[n].outcome.error)
    decreases |effects|
  {
    if effects != [] {
      var e := effects[0];
      var rest := effects[1..];
      var heap' := Apply(heap, e);
      if e.outcome.Ok? {
        var merged' := merged[e.outcome.value := e.target.value];
        assert forall i :: 0 <= i < |rest| ==> rest[i] == effects[i + 1];
        assert Run(effects, heap, merged) == Run(rest, heap', merged');
        RunError(rest, heap', merged');
        forall n | 0 <= n < |effects| && effects[n].outcome.Err? && (forall j :: 0 <= j < n ==> effects[j].outcome.Ok?)
          ensures Run(effects, heap, merged).result == Err(effects[n].outcome.error)
        {
          assert n > 0 && rest[n - 1] == effects[n];
          assert forall j :: 0 <= j < n - 1 ==> rest[j].outcome.Ok? by {
            forall j | 0 <= j < n - 1
              ensures rest[j].outcome.Ok?
            {
              assert rest[j] == effects[j + 1];
            }
          }
        }
      }
    }
  }

  /** Every item merges without an exception. */
  predicate AllOk(effects: seq<Effect>)
  {
    forall i :: 0 <= i < |effects| ==> effects[i].outcome.Ok?
  }

  /** No later item has the same id as item `i`. */
  predicate IdIsLast(effects: seq<Effect>, i: nat)
    requires AllOk(effects) && i < |effects|
  {
    forall j :: i < j < |effects| ==> effects[j].outcome.value != effects[i].outcome.value
  }

  /** No later item is joined with the same description as item `i`. */
  predicate TargetIsLast(effects: seq<Effect>, i: nat)
    requires i < |effects|
  {
    forall j :: i < j < |effects| ==> effects[j].target != effects[i].target
  }

  /** The ids of all items: the set of `effects[i].outcome.value`. */
  function Ids(effects: seq<Effect>): set<Value>
    requires AllOk(effects)
  {
    set i | 0 <= i < |effects| :: effects[i].outcome.value
  }

  lemma IdsCons(effects: seq<Effect>)
    requires AllOk(effects) && effects != []
    ensures AllOk(effects[1..])
    ensures Ids(effects) == {effects[0].outcome.value} + Ids(effects[1..])
  {
    var rest := effects[1..];
    assert forall i :: 0 <= i < |rest| ==> rest[i] == effects[i + 1];
    forall k | k in Ids(effects)
      ensures k in {effects[0].outcome.value} + Ids(rest)
    {
      var i :| 0 <= i < |effects| && effects[i].outcome.value == k;
      if i > 0 {
        assert rest[i - 1].outcome.value == k;
      }
    }
  }

  /** When every item merges, the result's keys are the items' ids added to
      the keys merged earlier, and an earlier key no item has keeps its value. */
  lemma {:induction false} RunKeys(effects: seq<Effect>, heap: Heap, merged: map<Value, Description>)
    requires AllSettled(effects, heap.Keys) && AllOk(effects)
    ensures Run(effects, heap, merged).result.Ok?
    ensures Run(effects, heap, merged).result.value.Keys == merged.Keys + Ids(effects)
    ensures forall k :: k in merged && k !in Ids(effects) ==> Run(effects, heap, merged).result.value[k] == merged[k]
    decreases |effects|
  {
    if effects != [] {
      var e := effects[0];
      var rest := effects[1..];
      var heap' := Apply(heap, e);
      var merged' := merged[e.outcome.value := e.target.value];
      assert AllSettled(rest, heap'.Keys) by {
        assert forall i :: 0 <= i < |rest| ==> rest[i] == effects[i + 1];
      }
      IdsCons(effects);
      RunKeys(rest, heap', merged');
    }
  }

  /** When every item merges, each item's id is mapped to the description of
      the last item with that id. */
  lemma {:induction false} RunLast(effects: seq<Effect>, heap: Heap, merged: map<Value, Description>)
    requires AllSettled(effects, heap.Keys) && AllOk(effects)
    ensures Run(effects, heap, merged).result.Ok?
    ensures forall i :: 0 <= i < |effects| ==> effects[i].outcome.value in Run(effects, heap, merged).result.value
    ensures forall i :: 0 <= i < |effects| && IdIsLast(effects, i) ==>
      Some(Run(effects, heap, merged).result.value[effects[i].outcome.value]) == effects[i].target
    decreases |effects|
  {
    RunKeys(effects, heap, merged);
    if effects != [] {
      var e := effects[0];
      var rest := effects[1..];
      var id0 := e.outcome.value;
      var heap' := Apply(heap, e);
      var merged' := merged[id0 := e.target.value];
      assert forall i :: 0 <= i < |rest| ==> rest[i] == effects[i + 1];
      IdsCons(effects);
      RunLast(rest, heap', merged');
      var r := Run(rest, heap', merged').result.value;
      assert Run(effects, heap, merged).result == Ok(r);
      forall i | 0 <= i < |effects| && IdIsLast(effects, i)
        ensures Some(r[effects[i].outcome.value]) == effects[i].target
      {
        if i == 0 {
          assert id0 !in Ids(rest);
          RunKeys(rest, heap', merged');
        } else {
          assert rest[i - 1] == effects[i];
          assert IdIsLast(rest, i - 1);
        }
      }
    }
  }

  /** Assigning a second item's three fields hides the first one's. */
  lemma StampOverwrites(fields: Fields, first: seq<(string, Value)>, second: seq<(string, Value)>)
    requires IsStamp(first) && IsStamp(second)
    ensures Assign(Assign(fields, first), second) == Assign(fields, second)
  {
    assert first == Stamp(first[0].1, first[1].1, first[2].1);
    assert second == Stamp(second[0].1, second[1].1, second[2].1);
    AssignWrites(fields, first[0].1, first[1].1, first[2].1);
    AssignWrites(Assign(fields, first), second[0].1, second[1].1, second[2].1);
    AssignWrites(fields, second[0].1, second[1].1, second[2].1);
  }

  /** When every item merges, each description ends with the context id, id
      and amount of the last item joined with it and its other fields as they
      were; descriptions no item names are untouched. */
  lemma {:induction false} RunHeap(effects: seq<Effect>, heap: Heap, merged: map<Value, Description>)
    requires AllSettled(effects, heap.Keys) && AllOk(effects)
    ensures forall d :: d in heap && (forall i :: 0 <= i < |effects| ==> effects[i].target != Some(d)) ==>
      Run(effects, heap, merged).heap[d] == heap[d]
    ensures forall i :: 0 <= i < |effects| && TargetIsLast(effects, i) ==>
      Run(effects, heap, merged).heap[effects[i].target.value] == Assign(heap[effects[i].target.value], effects[i].writes)
    decreases |effects|
  {
    if effects != [] {
      var e := effects[0];
      var rest := effects[1..];
      var t0 := e.target.value;
      var heap' := Apply(heap, e);
      var merged' := merged[e.outcome.value := t0];
      assert forall i :: 0 <= i < |rest| ==> rest[i] == effects[i + 1];
      RunHeap(rest, heap', merged');
      var h := Run(rest, heap', merged').heap;
      assert Run(effects, heap, merged).heap == h;
      forall i | 0 <= i < |effects| && TargetIsLast(effects, i)
        ensures h[effects[i].target.value] == Assign(heap[effects[i].target.value], effects[i].writes)
      {
        if i > 0 {
          assert rest[i - 1] == effects[i];
          assert TargetIsLast(rest, i - 1);
          if effects[i].target.value == t0 {
            StampOverwrites(heap[t0], e.writes, effects[i].writes);
          }
        }
      }
    }
  }

  /** One pass of the loop body of `merge_items`: returns the item's id,
      or the exception, and the description written to. */
  method MergeItem(item: Value, descs: map<string, Description>, contextId: Option<Value>, ghost pool: set<Description>)
    returns (r: Result<Value>, target: Option<Description>)
    requires descs.Values <= pool
    modifies descs.Values
    ensures var e := ItemEffect(item, descs, contextId);
      r == e.outcome && target == e.target && Snapshot(pool) == Apply(old(Snapshot(pool)), e)
  {
    ghost var e := ItemEffect(item, descs, contextId);
    var key := GetDescriptionKey(item);
    if key.Err? {
      return Err(key.error), None;
    }
    if key.value !in descs {
      return Err(KeyError(key.value)), None;
    }
    var description := descs[key.value];
    var fields := item.entries;
    var id := ItemId(fields);
    if id.Err? {
      return Err(id.error), None;
    }
    var c := ContextIdFor(fields, contextId);
    if c.Err? {
      return Err(c.error), None;
    }
    ghost var before := description.fields;
    description.fields := description.fields["contextid" := c.value];
    description.fields := description.fields["id" := id.value];
    if "amount" !in fields {
      AssignWrites(before, c.value, id.value, Null);
      assert Snapshot(pool) == Apply(old(Snapshot(pool)), e);
      return Err(KeyError("amount")), Some(description);
    }
    description.fields := description.fields["amount" := fields["amount"]];
    AssignWrites(before, c.value, id.value, fields["amount"]);
    assert Snapshot(pool) == Apply(old(Snapshot(pool)), e);
    if !Hashable(id.value) {
      return Err(TypeError), Some(description);
    }
    return Ok(id.value), Some(description);
  }

  /** One step of the loop. */
  lemma RunStep(effects: seq<Effect>, i: nat, heap: Heap, merged: map<Value, Description>)
    requires AllSettled(effects, heap.Keys) && i < |effects|
    ensures AllSettled(effects[i..], heap.Keys) && AllSettled(effects[i + 1..], Apply(heap, effects[i]).Keys)
    ensures Run(effects[i..], heap, merged) ==
      match effects[i].outcome
      case Err(err) => Outcome(Err(err), Apply(heap, effects[i]))
      case Ok(id) => Run(effects[i + 1..], Apply(heap, effects[i]), merged[id := effects[i].target.value])
  {
    assert effects[i..][0] == effects[i] && effects[i..][1..] == effects[i + 1..];
  }

  /** `merge_items(items, descriptions, context_id=...)`, updating the
      description objects in place. */
  method MergeItems(items: seq<Value>, descs: map<string, Description>, contextId: Option<Value>,
                    ghost pool: set<Description>)
    returns (r: Result<map<Value, Description>>)
    requires descs.Values <= pool
    modifies descs.Values
    ensures var o := Merge(items, descs, contextId, old(Snapshot(pool)));
      r == o.result && Snapshot(pool) == o.heap
  {
    ghost var es := Effects(items, descs, contextId);
    var merged: map<Value, Description> := map[];
    var i := 0;
    while i < |items|
      invariant 0 <= i <= |items|
      invariant Merge(items, descs, contextId, old(Snapshot(pool))) == Run(es[i..], Snapshot(pool), merged)
    {
      RunStep(es, i, Snapshot(pool), merged);
      var id, description := MergeItem(items[i], descs, contextId, pool);
      if id.Err? {
        return Err(id.error);
      }
      merged := merged[id.value := description.value];
      i := i + 1;
    }
    assert es[i..] == [];
    return Ok(merged);
  }

  /** `merge_items` succeeds exactly when every item is mergeable; otherwise
      it raises what the first unmergeable item raises. In particular an
      item whose description key is missing, after mergeable items only,
      raises KeyError for that key. */
  lemma MergeErrors(items: seq<Value>, descs: map<string, Description>, contextId: Option<Value>, heap: Heap)
    requires descs.Values <= heap.Keys
    ensures Merge(items, descs, contextId, heap).result.Ok? <==>
      forall i :: 0 <= i < |items| ==> Mergeable(items[i], descs, contextId)
    ensures forall n :: 0 <= n < |items| && (forall j :: 0 <= j < n ==> Mergeable(items[j], descs, contextId)) ==>
      GetDescriptionKey(items[n]).Ok? && GetDescriptionKey(items[n]).value !in descs ==>
      Merge(items, descs, contextId, heap).result == Err(KeyError(GetDescriptionKey(items[n]).value))
  {
    var es := Effects(items, descs, contextId);
    forall i | 0 <= i < |items|
      ensures es[i] == ItemEffect(items[i], descs, contextId)
      ensures es[i].outcome.Ok? <==> Mergeable(items[i], descs, contextId)
    {
      ItemEffectMeaning(items[i], descs, contextId);
    }
    RunError(es, heap, map[]);
    if forall i :: 0 <= i < |items| ==> Mergeable(items[i], descs, contextId) {
      RunKeys(es, heap, map[]);
    }
    forall n | 0 <= n < |items| && (forall j :: 0 <= j < n ==> Mergeable(items[j], descs, contextId)) &&
      GetDescriptionKey(items[n]).Ok? && GetDescriptionKey(items[n]).value !in descs
      ensures Merge(items, descs, contextId, heap).result == Err(KeyError(GetDescriptionKey(items[n]).value))
    {
      ItemEffectMeaning(items[n], descs, contextId);
      assert es[n].outcome.Err?;
    }
  }

  /** When every item is mergeable, the result's keys are exactly the
      items' ids (`id`, or `assetid` when `id` is missing or falsy), and each
      id maps to the description named by the last item with that id. */
  lemma MergeResult(items: seq<Value>, descs: map<string, Description>, contextId: Option<Value>, heap: Heap)
    requires descs.Values <= heap.Keys
    requires forall i :: 0 <= i < |items| ==> Mergeable(items[i], descs, contextId)
    ensures Merge(items, descs, contextId, heap).result.Ok?
    ensures Merge(items, descs, contextId, heap).result.value.Keys ==
      set i | 0 <= i < |items| :: MergedId(items[i], descs, contextId)
    ensures forall i :: 0 <= i < |items| && IdLast(items, descs, contextId, i) ==>
      Merge(items, descs, contextId, heap).result.value[MergedId(items[i], descs, contextId)]
        == NamedDescription(items[i], descs, contextId)
  {
    var es := Effects(items, descs, contextId);
    forall i | 0 <= i < |items|
      ensures es[i] == Effect(Some(NamedDescription(items[i], descs, contextId)), StampOf(items[i], descs, contextId),
                              Ok(MergedId(items[i], descs, contextId)))
    {
      ItemEffectMeaning(items[i], descs, contextId);
    }
    RunKeys(es, heap, map[]);
    RunLast(es, heap, map[]);
    assert Ids(es) == set i | 0 <= i < |items| :: MergedId(items[i], descs, contextId);
    forall i | 0 <= i < |items| && IdLast(items, descs, contextId, i)
      ensures IdIsLast(es, i)
    {
    }
  }

  /** No later item has the same id as item `i`. */
  predicate IdLast(items: seq<Value>, descs: map<string, Description>, contextId: Option<Value>, i: nat)
    requires i < |items| && forall j :: 0 <= j < |items| ==> Mergeable(items[j], descs, contextId)
  {
    forall j :: i < j < |items| ==> MergedId(items[j], descs, contextId) != MergedId(items[i], descs, contextId)
  }

  /** No later item names the same description as item `i`. */
  predicate DescriptionLast(items: seq<Value>, descs: map<string, Description>, contextId: Option<Value>, i: nat)
    requires i < |items| && forall j :: 0 <= j < |items| ==> Mergeable(items[j], descs, contextId)
  {
    forall j :: i < j < |items| ==> NamedDescription(items[j], descs, contextId) != NamedDescription(items[i], descs, contextId)
  }

  /** When every item is mergeable, each description ends with the
      `contextid`, `id` and `amount` of the last item that names it, its other
      fields as they were; a description no item names is untouched. */
  lemma MergeDescriptions(items: seq<Value>, descs: map<string, Description>, contextId: Option<Value>, heap: Heap)
    requires descs.Values <= heap.Keys
    requires forall i :: 0 <= i < |items| ==> Mergeable(items[i], descs, contextId)
    ensures Merge(items, descs, contextId, heap).heap.Keys == heap.Keys
    ensures forall d :: d in heap && (forall i :: 0 <= i < |items| ==> NamedDescription(items[i], descs, contextId) != d) ==>
      Merge(items, descs, contextId, heap).heap[d] == heap[d]
    ensures forall i :: 0 <= i < |items| && DescriptionLast(items, descs, contextId, i) ==>
      Merge(items, descs, contextId, heap).heap[NamedDescription(items[i], descs, contextId)] ==
        Assign(heap[NamedDescription(items[i], descs, contextId)], StampOf(items[i], descs, contextId))
  {
    var es := Effects(items, descs, contextId);
    forall i | 0 <= i < |items|
      ensures es[i] == Effect(Some(NamedDescription(items[i], descs, contextId)), StampOf(items[i], descs, contextId),
                              Ok(MergedId(items[i], descs, contextId)))
    {
      ItemEffectMeaning(items[i], descs, contextId);
    }
    RunHeap(es, heap, map[]);
    forall i | 0 <= i < |items| && DescriptionLast(items, descs, contextId, i)
      ensures TargetIsLast(es, i)
    {
    }
  }

  /** Two items naming one description share one dict: both ids map to the
      same object, and its `id` field holds the later item's id. */
  lemma SharedDescriptionAliases(items: seq<Value>, descs: map<string, Description>, contextId: Option<Value>,
                                 heap: Heap, i: nat, j: nat)
    requires descs.Values <= heap.Keys
    requires forall k :: 0 <= k < |items| ==> Mergeable(items[k], descs, contextId)
    requires i < j < |items| && NamedDescription(items[i], descs, contextId) == NamedDescription(items[j], descs, contextId)
    requires IdLast(items, descs, contextId, i) && IdLast(items, descs, contextId, j)
    requires DescriptionLast(items, descs, contextId, j)
    ensures Merge(items, descs, contextId, heap).result.Ok?
    ensures var r := Merge(items, descs, contextId, heap).result.value;
      MergedId(items[i], descs, contextId) in r && MergedId(items[j], descs, contextId) in r &&
      r[MergedId(items[i], descs, contextId)] == r[MergedId(items[j], descs, contextId)]
    ensures var h := Merge(items, descs, contextId, heap).heap;
      var d := NamedDescription(items[i], descs, contextId);
      d in h && "id" in h[d] && h[d]["id"] == MergedId(items[j], descs, contextId)
  {
    MergeResult(items, descs, contextId, heap);
    MergeDescriptions(items, descs, contextId, heap);
    var d := NamedDescription(items[j], descs, contextId);
    var w := StampOf(items[j], descs, contextId);
    AssignWrites(heap[d], w[0].1, w[1].1, w[2].1);
  }
}
