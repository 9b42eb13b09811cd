/**
 * The dictionary-building loop the program writes twice (`get_board_labels` and the
 * eligible-card index of `wipe_managed`):
 *
 *     out = {}
 *     for x in xs:
 *         k = key(x)
 *         if k: out[k] = val(x)
 *
 * Entries with a blank key are skipped and a later entry replaces an earlier one
 * with the same key.
 */
module Index {

  function LastWins<T, V>(xs: seq<T>, key: T -> string, val: T -> V): map<string, V> {
    if xs == [] then map[]
    else
      var last := xs[|xs| - 1];
      var m := LastWins(xs[..|xs| - 1], key, val);
      if key(last) != "" then m[key(last) := val(last)] else m
  }

  /** No later entry of `xs` has the same key as the one at `i`. */
  predicate IsLast<T>(xs: seq<T>, key: T -> string, i: int)
    requires 0 <= i < |xs|
  {
    forall j :: i < j < |xs| ==> key(xs[j]) != key(xs[i])
  }

  /** The keys are exactly the non-blank keys of the entries. */
  lemma {:induction false} LastWinsKeys<T, V>(xs: seq<T>, key: T -> string, val: T -> V, k: string)
    ensures k in LastWins(xs, key, val) <==> k != "" && exists i :: 0 <= i < |xs| && key(xs[i]) == k
  {
    if xs != [] {
      var init := xs[..|xs| - 1];
      LastWinsKeys(init, key, val, k);
      if k != "" && key(xs[|xs| - 1]) != k {
        if exists i :: 0 <= i < |xs| && key(xs[i]) == k {
          var i :| 0 <= i < |xs| && key(xs[i]) == k;
          assert init[i] == xs[i];
        }
        if exists i :: 0 <= i < |init| && key(init[i]) == k {
          var i :| 0 <= i < |init| && key(init[i]) == k;
          assert init[i] == xs[i];
        }
      }
    }
  }

  /** The value stored under a key is that of the last entry carrying the key. */
  lemma {:induction false} LastWinsValue<T, V>(xs: seq<T>, key: T -> string, val: T -> V, i: int)
    requires 0 <= i < |xs| && key(xs[i]) != "" && IsLast(xs, key, i)
    ensures key(xs[i]) in LastWins(xs, key, val)
    ensures LastWins(xs, key, val)[key(xs[i])] == val(xs[i])
  {
    var init := xs[..|xs| - 1];
    if i < |xs| - 1 {
      assert init[i] == xs[i];
      assert IsLast(init, key, i) by {
        forall j | i < j < |init| ensures key(init[j]) != key(init[i]) {
          assert init[j] == xs[j];
        }
      }
      LastWinsValue(init, key, val, i);
    }
  }

  /** Every stored value is that of some entry carrying its key. */
  lemma {:induction false} LastWinsFrom<T, V>(xs: seq<T>, key: T -> string, val: T -> V, k: string)
    requires k in LastWins(xs, key, val)
    ensures exists i :: 0 <= i < |xs| && key(xs[i]) == k && IsLast(xs, key, i) && LastWins(xs, key, val)[k] == val(xs[i])
  {
    var init := xs[..|xs| - 1];
    var last := xs[|xs| - 1];
    LastWinsKeys(xs, key, val, k);
    if key(last) == k {
      var i := |xs| - 1;
      assert key(xs[i]) == k && IsLast(xs, key, i) && LastWins(xs, key, val)[k] == val(xs[i]);
    } else {
      LastWinsFrom(init, key, val, k);
      var i :| 0 <= i < |init| && key(init[i]) == k && IsLast(init, key, i) && LastWins(init, key, val)[k] == val(init[i]);
      assert init[i] == xs[i];
      assert IsLast(xs, key, i) by {
        forall j | i < j < |xs| ensures key(xs[j]) != key(xs[i]) {
          if j < |init| { assert init[j] == xs[j]; }
        }
      }
    }
  }
}
