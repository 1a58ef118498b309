/** The string-to-string maps the commands edit (`PairMap` in the source):
    headers, query parameters and variables. Parsing an input such as
    `key=value` or `key: value` is not part of this model; an input arrives
    here already split into its key and value. */
module PairMaps {
  import opened Wrappers

  type StrMap = map<string, string>

  /** One parsed `key=value` / `key: value` input. */
  datatype Pair = Pair(key: string, value: string)

  /** The value the last input naming `k` carries, if any input names it. */
  function LastValue(inputs: seq<Pair>, k: string): Option<string> {
    if inputs == [] then None
    else if inputs[|inputs| - 1].key == k then Some(inputs[|inputs| - 1].value)
    else LastValue(inputs[..|inputs| - 1], k)
  }

  /** The map after `set` has been applied to each input in turn. */
  function SetAll(m: StrMap, inputs: seq<Pair>): StrMap {
    if inputs == [] then m
    else
      var last := inputs[|inputs| - 1];
      SetAll(m, inputs[..|inputs| - 1])[last.key := last.value]
  }

  /** Applying inputs in order: a key some input names ends up with the value
      of the LAST input naming it; every other key keeps its old entry. */
  lemma {:induction false} SetAllLastWins(m: StrMap, inputs: seq<Pair>, k: string)
    ensures LastValue(inputs, k).Some? ==> k in SetAll(m, inputs) && SetAll(m, inputs)[k] == LastValue(inputs, k).value
    ensures LastValue(inputs, k).None? ==> (k in SetAll(m, inputs) <==> k in m)
    ensures LastValue(inputs, k).None? && k in m ==> SetAll(m, inputs)[k] == m[k]
  {
    if inputs != [] {
      SetAllLastWins(m, inputs[..|inputs| - 1], k);
    }
  }

  /** The keys of `SetAll` are the old keys and the keys of the inputs. */
  lemma {:induction false} SetAllKeys(m: StrMap, inputs: seq<Pair>)
    ensures SetAll(m, inputs).Keys == m.Keys + set i | 0 <= i < |inputs| :: inputs[i].key
  {
    if inputs != [] {
      var init := inputs[..|inputs| - 1];
      SetAllKeys(m, init);
      var ks := set i | 0 <= i < |inputs| :: inputs[i].key;
      var ks' := set i | 0 <= i < |init| :: init[i].key;
      assert ks == ks' + {inputs[|inputs| - 1].key} by {
        forall x | x in ks ensures x in ks' + {inputs[|inputs| - 1].key} {
          var i :| 0 <= i < |inputs| && inputs[i].key == x;
          if i < |init| { assert init[i].key == x; }
        }
        forall x | x in ks' ensures x in ks {
          var i :| 0 <= i < |init| && init[i].key == x;
          assert inputs[i].key == x;
        }
      }
    }
  }

  /** The keys of a list, as a set. */
  function KeySet(keys: seq<string>): (r: set<string>)
    ensures forall k :: k in r <==> k in keys
  {
    set i | 0 <= i < |keys| :: keys[i]
  }
}
