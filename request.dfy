/**
 * Request parameters. A Django `QueryDict` (`request.POST`, `request.GET`) is
 * modelled by the (key, value) pairs of the query string, in the order they
 * were sent; a key may repeat. `QueryDict.get` returns the last value sent for
 * the key (Get), and `items()` yields each key once, in the order of its first
 * occurrence, with that last value (Items). A plain dict is a sequence whose
 * keys are unique, and is its own `items()` view.
 */
module Request {
  import opened Wrappers

  type Pair = (string, string)

  /** The value of the last pair whose key is one of `keys`. */
  function LastOf(params: seq<Pair>, keys: set<string>): Option<string> {
    if |params| == 0 then None
    else if params[|params| - 1].0 in keys then Some(params[|params| - 1].1)
    else LastOf(params[..|params| - 1], keys)
  }

  /** `params.get(key)`. */
  function Get(params: seq<Pair>, key: string): Option<string> {
    LastOf(params, {key})
  }

  /** No key occurs twice, as in a Python dict. */
  predicate UniqueKeys(params: seq<Pair>) {
    forall i, j :: 0 <= i < j < |params| ==> params[i].0 != params[j].0
  }

  /** `a` is sent before the first pair that carries `b`. */
  predicate SentBefore(params: seq<Pair>, a: string, b: string) {
    exists p :: 0 <= p < |params| && params[p].0 == a && forall q :: 0 <= q <= p ==> params[q].0 != b
  }

  /** The distinct keys, in the order of their first occurrence. */
  function Keys(params: seq<Pair>): (keys: seq<string>)
    ensures forall i, j :: 0 <= i < j < |keys| ==> keys[i] != keys[j]
    ensures forall k :: k in keys <==> Get(params, k).Some?
  {
    if |params| == 0 then []
    else
      var keys := Keys(params[..|params| - 1]);
      var key := params[|params| - 1].0;
      if key in keys then keys else keys + [key]
  }

  /** `items()`: each key once, in the order of its first occurrence, with its last value. */
  function Items(params: seq<Pair>): (items: seq<Pair>)
    ensures |items| == |Keys(params)|
    ensures forall i :: 0 <= i < |items| ==>
      items[i].0 == Keys(params)[i] && Get(params, items[i].0) == Some(items[i].1)
    ensures UniqueKeys(items)
  {
    var keys := Keys(params);
    seq(|keys|, i requires 0 <= i < |keys| => (keys[i], Get(params, keys[i]).value))
  }

  /** One more pair: it wins if it carries one of the keys. */
  lemma LastOfStep(params: seq<Pair>, i: nat, keys: set<string>)
    requires i < |params|
    ensures LastOf(params[..i + 1], keys) ==
      if params[i].0 in keys then Some(params[i].1) else LastOf(params[..i], keys)
  {
    assert params[..i + 1][..i] == params[..i];
  }

  /** Lookup over the whole sequence, as the last step of a loop over its prefixes. */
  lemma LastOfAll(params: seq<Pair>, keys: set<string>)
    ensures LastOf(params[..|params|], keys) == LastOf(params, keys)
  {
    assert params[..|params|] == params;
  }

  /**
   * LastOf finds v exactly when some pair with one of the keys carries v and
   * no later pair carries any of the keys.
   */
  lemma {:induction false} LastOfIsLast(params: seq<Pair>, keys: set<string>, v: string)
    ensures LastOf(params, keys) == Some(v) <==>
      exists i :: 0 <= i < |params| && params[i].0 in keys && params[i].1 == v &&
        forall j :: i < j < |params| ==> params[j].0 !in keys
    decreases |params|
  {
    if |params| > 0 {
      var n := |params| - 1;
      var init := params[..n];
      LastOfIsLast(init, keys, v);
      if params[n].0 !in keys {
        if LastOf(params, keys) == Some(v) {
          var i :| 0 <= i < |init| && init[i].0 in keys && init[i].1 == v &&
            forall j :: i < j < |init| ==> init[j].0 !in keys;
          assert forall j :: i < j < |params| ==> params[j].0 !in keys by {
            forall j | i < j < |params| ensures params[j].0 !in keys {
              if j < n { assert params[j] == init[j]; }
            }
          }
        }
        if exists i :: 0 <= i < |params| && params[i].0 in keys && params[i].1 == v &&
            forall j :: i < j < |params| ==> params[j].0 !in keys {
          var i :| 0 <= i < |params| && params[i].0 in keys && params[i].1 == v &&
            forall j :: i < j < |params| ==> params[j].0 !in keys;
          assert i < n;
          assert init[i] == params[i];
          assert forall j :: i < j < |init| ==> init[j].0 !in keys by {
            forall j | i < j < |init| ensures init[j].0 !in keys {
              assert init[j] == params[j];
            }
          }
        }
      }
    }
  }

  /** LastOf finds nothing exactly when no pair carries one of the keys. */
  lemma {:induction false} LastOfNone(params: seq<Pair>, keys: set<string>)
    ensures LastOf(params, keys) == None <==> forall i :: 0 <= i < |params| ==> params[i].0 !in keys
    decreases |params|
  {
    if |params| > 0 {
      var n := |params| - 1;
      LastOfNone(params[..n], keys);
      assert forall i :: 0 <= i < n ==> params[..n][i] == params[i];
    }
  }

  /** In a dict, looking a key up gives the value paired with it. */
  lemma GetUnique(params: seq<Pair>, i: nat)
    requires UniqueKeys(params)
    requires i < |params|
    ensures Get(params, params[i].0) == Some(params[i].1)
  {
    LastOfIsLast(params, {params[i].0}, params[i].1);
  }

  /** Keys lists a key before another exactly in the order their first occurrences were sent. */
  lemma {:induction false} KeysInFirstOccurrenceOrder(params: seq<Pair>)
    ensures forall i, j :: 0 <= i < j < |Keys(params)| ==> SentBefore(params, Keys(params)[i], Keys(params)[j])
    decreases |params|
  {
    if |params| > 0 {
      var n := |params| - 1;
      var init := params[..n];
      var key := params[n].0;
      var before := Keys(init);
      KeysInFirstOccurrenceOrder(init);
      var keys := Keys(params);
      forall i, j | 0 <= i < j < |keys| ensures SentBefore(params, keys[i], keys[j]) {
        assert keys[i] == before[i];
        if j < |before| {
          assert keys[j] == before[j];
          assert SentBefore(init, before[i], before[j]);
          var p :| 0 <= p < |init| && init[p].0 == before[i] && forall q :: 0 <= q <= p ==> init[q].0 != before[j];
          assert params[p] == init[p];
          assert forall q :: 0 <= q <= p ==> params[q] == init[q];
        } else {
          assert keys[j] == key && key !in before;
          LastOfNone(init, {key});
          LastOfNone(init, {before[i]});
          assert before[i] in before;
          assert !forall q :: 0 <= q < |init| ==> init[q].0 !in {before[i]};
          var p :| 0 <= p < |init| && init[p].0 == before[i];
          assert params[p] == init[p];
          assert forall q :: 0 <= q <= p ==> params[q] == init[q];
        }
      }
    }
  }

  /** Looking a key up in `items()` gives what `get` gives. */
  lemma ItemsGet(params: seq<Pair>, k: string)
    ensures Get(Items(params), k) == Get(params, k)
  {
    var items := Items(params);
    if Get(params, k).Some? {
      var i :| 0 <= i < |items| && Keys(params)[i] == k;
      GetUnique(items, i);
    } else {
      LastOfNone(items, {k});
    }
  }

  /** A plain dict is its own `items()` view. */
  lemma {:induction false} ItemsOfDict(params: seq<Pair>)
    requires UniqueKeys(params)
    ensures Items(params) == params
    decreases |params|
  {
    if |params| > 0 {
      var n := |params| - 1;
      var init := params[..n];
      ItemsOfDict(init);
      var key := params[n].0;
      assert key !in Keys(init) by {
        LastOfNone(init, {key});
      }
      assert Keys(params) == Keys(init) + [key];
      forall i | 0 <= i < |params| ensures Items(params)[i] == params[i] {
        GetUnique(params, i);
        if i < n {
          assert Items(init)[i] == init[i] == params[i];
        }
      }
    }
  }
}
