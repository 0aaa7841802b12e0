/**
  Dictionaries filled from a sequence of `(key, value)` entries, the two
  ways the extractor fills them: `d[k] = v` on every entry (a later entry
  for a key replaces an earlier one), and `if k not in d: d[k] = v` (the
  first entry for a key stays).
 */
module Keyed {
  /** The keys the entries mention. */
  function Keys<V>(es: seq<(nat, V)>): set<nat> {
    set j | 0 <= j < |es| :: es[j].0
  }

  /** `for k, v in es: d[k] = v`, starting from `acc`. */
  function Assign<V>(acc: map<nat, V>, es: seq<(nat, V)>): (r: map<nat, V>)
    ensures r.Keys == acc.Keys + Keys(es)
    decreases |es|
  {
    if |es| == 0 then acc
    else
      var init := es[..|es| - 1];
      assert Keys(es) == Keys(init) + {es[|es| - 1].0} by {
        assert forall j :: 0 <= j < |init| ==> init[j] == es[j];
      }
      Assign(acc, init)[es[|es| - 1].0 := es[|es| - 1].1]
  }

  /** `for k, v in es: if k not in d: d[k] = v`, starting from `acc`. */
  function Insert<V>(acc: map<nat, V>, es: seq<(nat, V)>): (r: map<nat, V>)
    ensures r.Keys == acc.Keys + Keys(es)
    decreases |es|
  {
    if |es| == 0 then acc
    else
      var init := es[..|es| - 1];
      assert Keys(es) == Keys(init) + {es[|es| - 1].0} by {
        assert forall j :: 0 <= j < |init| ==> init[j] == es[j];
      }
      var m := Insert(acc, init);
      if es[|es| - 1].0 in m then m else m[es[|es| - 1].0 := es[|es| - 1].1]
  }

  /** The last entry for a key decides its value. */
  lemma {:induction false} AssignLast<V>(acc: map<nat, V>, es: seq<(nat, V)>, j: nat)
    requires j < |es|
    requires forall i :: j < i < |es| ==> es[i].0 != es[j].0
    ensures es[j].0 in Assign(acc, es) && Assign(acc, es)[es[j].0] == es[j].1
    decreases |es|
  {
    if j < |es| - 1 {
      var init := es[..|es| - 1];
      assert init[j] == es[j];
      assert forall i :: j < i < |init| ==> init[i] == es[i];
      AssignLast(acc, init, j);
    }
  }

  /** A key no entry mentions keeps its value in `acc`. */
  lemma {:induction false} AssignOthers<V>(acc: map<nat, V>, es: seq<(nat, V)>, k: nat)
    requires k in acc && k !in Keys(es)
    ensures Assign(acc, es)[k] == acc[k]
    decreases |es|
  {
    if |es| > 0 {
      var init := es[..|es| - 1];
      assert es[|es| - 1].0 != k;
      assert Keys(init) <= Keys(es) by {
        assert forall j :: 0 <= j < |init| ==> init[j] == es[j];
      }
      AssignOthers(acc, init, k);
    }
  }

  /** Every value is that of `acc` or of some entry for its key. */
  lemma {:induction false} AssignFrom<V>(acc: map<nat, V>, es: seq<(nat, V)>, k: nat)
    requires k in Assign(acc, es)
    ensures (k in acc && Assign(acc, es)[k] == acc[k])
         || exists j :: 0 <= j < |es| && es[j] == (k, Assign(acc, es)[k])
    decreases |es|
  {
    if |es| > 0 && es[|es| - 1].0 != k {
      var init := es[..|es| - 1];
      AssignFrom(acc, init, k);
      assert forall j :: 0 <= j < |init| ==> init[j] == es[j];
    }
  }

  /** A key already in `acc` is never overwritten. */
  lemma {:induction false} InsertKeeps<V>(acc: map<nat, V>, es: seq<(nat, V)>, k: nat)
    requires k in acc
    ensures Insert(acc, es)[k] == acc[k]
    decreases |es|
  {
    if |es| > 0 {
      InsertKeeps(acc, es[..|es| - 1], k);
    }
  }

  /** For a key not in `acc`, the first entry for it decides its value. */
  lemma {:induction false} InsertFirst<V>(acc: map<nat, V>, es: seq<(nat, V)>, j: nat)
    requires j < |es| && es[j].0 !in acc
    requires forall i :: 0 <= i < j ==> es[i].0 != es[j].0
    ensures Insert(acc, es)[es[j].0] == es[j].1
    decreases |es|
  {
    var init := es[..|es| - 1];
    if j == |es| - 1 {
      assert es[j].0 !in Keys(init) by {
        assert forall i :: 0 <= i < |init| ==> init[i] == es[i];
      }
    } else {
      assert init[j] == es[j];
      assert forall i :: 0 <= i < j ==> init[i] == es[i];
      InsertFirst(acc, init, j);
    }
  }

  /** Every value is that of `acc` or of some entry for its key. */
  lemma {:induction false} InsertFrom<V>(acc: map<nat, V>, es: seq<(nat, V)>, k: nat)
    requires k in Insert(acc, es)
    ensures (k in acc && Insert(acc, es)[k] == acc[k])
         || exists j :: 0 <= j < |es| && es[j] == (k, Insert(acc, es)[k])
    decreases |es|
  {
    if |es| > 0 {
      var init := es[..|es| - 1];
      if k in Insert(acc, init) {
        InsertFrom(acc, init, k);
        assert forall j :: 0 <= j < |init| ==> init[j] == es[j];
      }
    }
  }
}
