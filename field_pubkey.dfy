/** `field_pubkey`: serde helpers that carry pubkeys as their base58 strings, for a
    vector of pubkeys (`vec`) and an optional pubkey (`option`). */
module FieldPubkey {
  import opened Results
  import opened Foreign
  import opened Serde

  // ---------------------------------------------------------------------------
  // vec

  /** Every string before index `i` parses as a pubkey. */
  predicate ParsesBefore(lib: Lib, strings: seq<string>, i: nat)
    requires i <= |strings|
  {
    forall j :: 0 <= j < i ==> lib.pubkeyFromStr(strings[j]).Ok?
  }

  /** What `vec::deserialize` returns: first `Vec<String>` is read (any shape error is
      serde's), then each string is parsed in order and the first parse error is
      returned as it is. */
  function PubkeysFromJson(lib: Lib, v: Json): (r: Result<seq<Pubkey>, DeError>)
    // not an array of strings: serde's own error, before any string is parsed
    ensures AsStrings(v).Err? ==> r == Err(Malformed)
    ensures AsStrings(v).Ok? ==>
              var strings := AsStrings(v).value;
              // succeeds exactly when every string parses
              && (r.Ok? <==> ParsesBefore(lib, strings, |strings|))
              // same length, same order
              && (r.Ok? ==> |r.value| == |strings| &&
                            forall i :: 0 <= i < |strings| ==> lib.pubkeyFromStr(strings[i]) == Ok(r.value[i]))
              // the first string that does not parse decides the error
              && (forall i :: 0 <= i < |strings| && ParsesBefore(lib, strings, i) && lib.pubkeyFromStr(strings[i]).Err? ==>
                    r == Err(InvalidPubkey(lib.pubkeyFromStr(strings[i]).error)))
  {
    var strings :- AsStrings(v);
    var parse := (s: string) => lib.pubkeyFromStr(s).MapErr(e => InvalidPubkey(e));
    var r := TryMap(parse, strings);
    assert forall i :: 0 <= i <= |strings| && ParsesBefore(lib, strings, i) ==> AllOkBefore(parse, strings, i);
    r
  }

  /** `vec::deserialize`: the loop that parses each string and pushes the pubkey. */
  method VecDeserialize(lib: Lib, v: Json) returns (r: Result<seq<Pubkey>, DeError>)
    ensures r == PubkeysFromJson(lib, v)
  {
    var strings :- AsStrings(v);
    var pubkeys: seq<Pubkey> := [];
    for k := 0 to |strings|
      invariant |pubkeys| == k
      invariant forall i :: 0 <= i < k ==> lib.pubkeyFromStr(strings[i]) == Ok(pubkeys[i])
    {
      var pubkey :- lib.pubkeyFromStr(strings[k]).MapErr(e => InvalidPubkey(e));
      pubkeys := pubkeys + [pubkey];
    }
    ghost var spec := PubkeysFromJson(lib, v);
    assert spec.Ok?;
    assert spec.value == pubkeys;
    r := Ok(pubkeys);
  }

  /** `vec::serialize`: each pubkey as its string, in order. */
  function VecSerialize(lib: Lib, keys: seq<Pubkey>): (r: Json)
    ensures r.Array? && |r.items| == |keys|
    ensures forall i :: 0 <= i < |keys| ==> r.items[i] == String(lib.pubkeyToString(keys[i]))
  {
    Array(seq(|keys|, i requires 0 <= i < |keys| => String(lib.pubkeyToString(keys[i]))))
  }

  /** What `vec::serialize` writes, `vec::deserialize` reads back, given that
      `Pubkey::from_str` parses what `Pubkey::to_string` prints. */
  lemma VecRoundTrip(lib: Lib, keys: seq<Pubkey>)
    requires PubkeyStringsRoundTrip(lib)
    ensures PubkeysFromJson(lib, VecSerialize(lib, keys)) == Ok(keys)
  {
    var v := VecSerialize(lib, keys);
    assert AsStrings(v).Ok?;
    var strings := AsStrings(v).value;
    forall i | 0 <= i < |keys|
      ensures lib.pubkeyFromStr(strings[i]) == Ok(keys[i])
    {
      assert strings[i] == lib.pubkeyToString(keys[i]);
    }
    var r := PubkeysFromJson(lib, v);
    assert r.Ok? && r.value == keys;
  }

  // ---------------------------------------------------------------------------
  // option

  /** `option::serialize`: a present pubkey as its string, an absent one as `null`. */
  function OptionSerialize(lib: Lib, t: Option<Pubkey>): (r: Json)
    ensures r.Null? <==> t.None?
    ensures t.Some? ==> r == String(lib.pubkeyToString(t.value))
  {
    match t
    case Some(pubkey) => String(lib.pubkeyToString(pubkey))
    case None => Null
  }

  /** Different optional pubkeys serialize differently, given that `Pubkey::from_str`
      parses what `Pubkey::to_string` prints: the JSON determines the value. */
  lemma OptionSerializeInjective(lib: Lib, s: Option<Pubkey>, t: Option<Pubkey>)
    requires PubkeyStringsRoundTrip(lib)
    requires OptionSerialize(lib, s) == OptionSerialize(lib, t)
    ensures s == t
  {
    if s.Some? && t.Some? {
      assert lib.pubkeyFromStr(lib.pubkeyToString(s.value)) == Ok(s.value);
      assert lib.pubkeyFromStr(lib.pubkeyToString(t.value)) == Ok(t.value);
    }
  }
}
