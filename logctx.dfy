/**
 * The structured log context of export_ip_pool: every call that adds
 * key/value pairs pushes a new immutable node onto a chain whose head the
 * context carries; flattening the chain yields the fields oldest first.
 *
 * A context is abstracted to the head of its chain (no head: no list
 * attached). The keys and values are the strings fmt.Sprint makes of them.
 */
module LogContext {
  import opened Wrappers

  /** A string log field, zap.String(key, value). */
  datatype Field = Field(key: string, value: string)

  /** kvLists: one node of the chain, with the node pushed before it. */
  datatype KvList = KvList(values: seq<Field>, previous: Option<KvList>)

  /** The part of a context.Context the logger reads: its chain head, if any. */
  datatype Context = Context(kvs: Option<KvList>)

  const Background: Context := Context(None)

  /** Number of fields held by a chain, over all its nodes. */
  function Size(list: KvList): nat
  {
    |list.values| + (match list.previous case None => 0 case Some(p) => Size(p))
  }

  /**
   * appendTo: the ancestors' fields, then this node's own, after `t`.
   */
  function AppendTo(list: KvList, t: seq<Field>): (r: seq<Field>)
    ensures |r| == |t| + Size(list)
  {
    var t' := match list.previous case None => t case Some(p) => AppendTo(p, t);
    t' + list.values
  }

  /** Flattening onto a non-empty slice is flattening onto nothing, then prepending it. */
  lemma {:induction false} AppendToOnto(list: KvList, t: seq<Field>)
    ensures AppendTo(list, t) == t + AppendTo(list, [])
  {
    match list.previous
    case None =>
      assert [] + list.values == list.values;
    case Some(p) =>
      AppendToOnto(p, t);
      ConcatAssoc(t, AppendTo(p, []), list.values);
  }

  lemma ConcatAssoc(a: seq<Field>, b: seq<Field>, c: seq<Field>)
    ensures (a + b) + c == a + (b + c)
  {
  }

  /** Flattening onto `t` keeps `t` in front and ends with the node's own fields. */
  lemma AppendToShape(list: KvList, t: seq<Field>)
    ensures AppendTo(list, t)[..|t|] == t
    ensures AppendTo(list, t)[|AppendTo(list, t)| - |list.values|..] == list.values
  {
    AppendToOnto(list, t);
  }

  /** The fields made of `kvs` taken pairwise, in order. */
  function Pairs(kvs: seq<string>): seq<Field>
    requires |kvs| % 2 == 0
  {
    if kvs == [] then [] else [Field(kvs[0], kvs[1])] + Pairs(kvs[2..])
  }

  /** Two more elements add one field at the end. */
  lemma {:induction false} PairsSnoc(kvs: seq<string>, key: string, value: string)
    requires |kvs| % 2 == 0
    ensures Pairs(kvs + [key, value]) == Pairs(kvs) + [Field(key, value)]
  {
    if kvs != [] {
      assert (kvs + [key, value])[2..] == kvs[2..] + [key, value];
      PairsSnoc(kvs[2..], key, value);
    }
  }

  /** `kvs` yields half as many fields as it has elements; field k is pair (2k, 2k+1). */
  lemma {:induction false} PairsAt(kvs: seq<string>)
    requires |kvs| % 2 == 0
    ensures |Pairs(kvs)| == |kvs| / 2
    ensures forall k :: 0 <= k < |kvs| / 2 ==> Pairs(kvs)[k] == Field(kvs[2 * k], kvs[2 * k + 1])
  {
    if kvs != [] {
      var rest := kvs[2..];
      PairsAt(rest);
      forall k | 0 <= k < |kvs| / 2
        ensures Pairs(kvs)[k] == Field(kvs[2 * k], kvs[2 * k + 1])
      {
        if k > 0 {
          var j := k - 1;
          assert Pairs(kvs)[k] == Pairs(rest)[j];
          assert Pairs(rest)[j] == Field(rest[2 * j], rest[2 * j + 1]);
          assert rest[2 * j] == kvs[2 * k] && rest[2 * j + 1] == kvs[2 * k + 1];
        }
      }
    }
  }

  /** The context CtxAddKvs returns: unchanged for no pairs, else one new node on top of the old head. */
  function AddKvs(ctx: Context, kvs: seq<string>): Context
    requires |kvs| % 2 == 0
  {
    if kvs == [] then ctx else Context(Some(KvList(Pairs(kvs), ctx.kvs)))
  }

  /**
   * CtxAddKvs: pairs up `kvs` (which must have even length, since each pair
   * reads element i+1) and pushes them as a new node whose previous node is
   * the context's current head.
   */
  method CtxAddKvs(ctx: Context, kvs: seq<string>) returns (r: Context)
    requires |kvs| % 2 == 0
    ensures r == AddKvs(ctx, kvs)
    ensures kvs == [] ==> r == ctx
    ensures kvs != [] ==> r.kvs.Some? && r.kvs.value.previous == ctx.kvs
  {
    if |kvs| == 0 {
      return ctx;
    }
    var fields: seq<Field> := [];
    var i := 0;
    while i < |kvs|
      invariant 0 <= i <= |kvs| && i % 2 == 0
      invariant fields == Pairs(kvs[..i])
    {
      PairsSnoc(kvs[..i], kvs[i], kvs[i + 1]);
      assert kvs[..i + 2] == kvs[..i] + [kvs[i], kvs[i + 1]];
      fields := fields + [Field(kvs[i], kvs[i + 1])];
      i := i + 2;
    }
    assert kvs[..i] == kvs;
    r := Context(Some(KvList(fields, ctx.kvs)));
  }

  /** getKvList: the flattened chain, or nothing when no list is attached. */
  function GetKvList(ctx: Context): (r: seq<Field>)
    ensures ctx.kvs.None? ==> r == []
    ensures ctx.kvs.Some? ==> |r| == Size(ctx.kvs.value)
  {
    match ctx.kvs
    case None => []
    case Some(list) => AppendTo(list, [])
  }

  /**
   * Adding pairs to a context appends exactly their fields, in order, after
   * every field already in the chain: the flattened list is oldest first.
   */
  lemma AddKvsAppends(ctx: Context, kvs: seq<string>)
    requires |kvs| % 2 == 0
    ensures GetKvList(AddKvs(ctx, kvs)) == GetKvList(ctx) + Pairs(kvs)
  {
  }

  /** Adding one key/value pair appends exactly that field. */
  lemma AddPairAppends(ctx: Context, key: string, value: string)
    ensures GetKvList(AddKvs(ctx, [key, value])) == GetKvList(ctx) + [Field(key, value)]
  {
    AddKvsAppends(ctx, [key, value]);
    assert [key, value][2..] == [];
  }
}
