/** `App.utils.getUrlParams`: the query's key/value pairs as an object.
    Pairs are the entries a `URLSearchParams` yields, in order and with
    their values already percent-decoded; splitting the query string into
    pairs is not part of this model. */
module UrlParams {

  /** The object built by assigning `result[key] = value` for each pair in
      order, so a later pair for a key replaces an earlier one. This is the
      intended reading of the query; `GetUrlParams` below is the reading as
      written, which decodes every value a second time. */
  function Params(entries: seq<(string, string)>): (m: map<string, string>)
    ensures m.Keys == set i | 0 <= i < |entries| :: entries[i].0
  {
    if entries == [] then map[]
    else
      var last := entries[|entries| - 1];
      var m' := Params(entries[..|entries| - 1]);
      assert forall i :: 0 <= i < |entries| - 1 ==> entries[..|entries| - 1][i] == entries[i];
      m'[last.0 := last.1]
  }

  /** Pair `i` is the last pair with key `key`. */
  predicate LastWithKey(entries: seq<(string, string)>, key: string, i: int) {
    0 <= i < |entries| && entries[i].0 == key && forall j :: i < j < |entries| ==> entries[j].0 != key
  }

  /** For a key, the value of its last pair is the one kept. */
  lemma {:induction false} LastPairWins(entries: seq<(string, string)>, i: nat)
    requires i < |entries|
    requires forall j :: i < j < |entries| ==> entries[j].0 != entries[i].0
    ensures entries[i].0 in Params(entries) && Params(entries)[entries[i].0] == entries[i].1
  {
    if i < |entries| - 1 {
      var init := entries[..|entries| - 1];
      assert init[i] == entries[i];
      LastPairWins(init, i);
    }
  }

  /** Every value in the object is the value of the last pair for its key. */
  lemma {:induction false} ValueFromLastPair(entries: seq<(string, string)>, key: string)
    requires key in Params(entries)
    ensures exists i :: 0 <= i < |entries| && entries[i] == (key, Params(entries)[key])
                        && forall j :: i < j < |entries| ==> entries[j].0 != key
  {
    var last := entries[|entries| - 1];
    var init := entries[..|entries| - 1];
    if last.0 == key {
      assert entries[|entries| - 1] == (key, Params(entries)[key]);
    } else {
      ValueFromLastPair(init, key);
      var i :| 0 <= i < |init| && init[i] == (key, Params(init)[key])
               && forall j :: i < j < |init| ==> init[j].0 != key;
      assert entries[i] == init[i];
      assert forall j :: i < j < |entries| ==> entries[j].0 != key by {
        forall j | i < j < |entries| ensures entries[j].0 != key {
          if j < |entries| - 1 {
            assert entries[j] == init[j];
          }
        }
      }
    }
  }

  /** The pairs with `decode` applied to every value. */
  function DecodeValues(entries: seq<(string, string)>, decode: string -> string): (r: seq<(string, string)>)
    ensures |r| == |entries|
    ensures forall i :: 0 <= i < |r| ==> r[i] == (entries[i].0, decode(entries[i].1))
  {
    seq(|entries|, i requires 0 <= i < |entries| => (entries[i].0, decode(entries[i].1)))
  }

  /** `getUrlParams` as written: the loop assigns
      `result[key] = decodeURIComponent(value)` for each entry, where
      `uriDecode` stands for `decodeURIComponent`. */
  method GetUrlParams(entries: seq<(string, string)>, uriDecode: string -> string) returns (params: map<string, string>)
    ensures params == Params(DecodeValues(entries, uriDecode))
    ensures params.Keys == set i | 0 <= i < |entries| :: entries[i].0
  {
    ghost var decoded := DecodeValues(entries, uriDecode);
    params := map[];
    for i := 0 to |entries|
      invariant params == Params(decoded[..i])
    {
      var (key, value) := entries[i];
      assert decoded[..i + 1][..i] == decoded[..i];
      params := params[key := uriDecode(value)];
    }
    assert decoded[..|entries|] == decoded;
    assert (set i | 0 <= i < |decoded| :: decoded[i].0) == set i | 0 <= i < |entries| :: entries[i].0 by {
      forall i | 0 <= i < |entries| ensures decoded[i].0 == entries[i].0 { }
    }
  }
}
