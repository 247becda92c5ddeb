/** The wire-format steps of the crate root: decoding the transactions of a swap
    response, and expanding the indexed route map. The HTTP requests that fetch the
    responses are not modelled; each operation starts from the decoded JSON body. */
module JupAg {
  import opened Results
  import opened Foreign

  /** `jup_ag::Error`. */
  datatype Error =
    | Reqwest
    | ParsePubkey(parseError: ParsePubkeyError)
    | Base64Decode(base64Error: Base64Error)
    | Bincode(bincodeError: BincodeError)

  // ---------------------------------------------------------------------------
  // swap: decoding the returned transactions

  /** The body of the `/swap` response. */
  datatype SwapResponse = SwapResponse(
    setupTransaction: Option<string>,
    swapTransaction: string,
    cleanupTransaction: Option<string>)

  /** `jup_ag::Swap`. */
  datatype Swap = Swap(setup: Option<Transaction>, swap: Transaction, cleanup: Option<Transaction>)

  /** `decode` inside `swap`: base64 first, then bincode; each library error is
      wrapped in its own `Error` variant. */
  function DecodeTransaction(lib: Lib, base64Transaction: string): (r: Result<Transaction, Error>)
    ensures lib.base64Decode(base64Transaction).Err? ==>
              r == Err(Base64Decode(lib.base64Decode(base64Transaction).error))
    ensures lib.base64Decode(base64Transaction).Ok? ==>
              var bytes := lib.base64Decode(base64Transaction).value;
              && (r.Ok? <==> lib.bincodeDeserialize(bytes).Ok?)
              && (r.Ok? ==> r.value == lib.bincodeDeserialize(bytes).value)
              && (r.Err? ==> r.error == Bincode(lib.bincodeDeserialize(bytes).error))
  {
    var bytes :- lib.base64Decode(base64Transaction).MapErr(e => Base64Decode(e));
    lib.bincodeDeserialize(bytes).MapErr(e => Bincode(e))
  }

  /** A transaction string that is absent, or present and decodable. */
  predicate DecodesIfPresent(lib: Lib, o: Option<string>)
  {
    o.Some? ==> DecodeTransaction(lib, o.value).Ok?
  }

  /** `response.x_transaction.map(decode).transpose()`. */
  function DecodeOptionalTransaction(lib: Lib, o: Option<string>): (r: Result<Option<Transaction>, Error>)
    // an absent transaction is no error; a present one must decode
    ensures r.Ok? <==> DecodesIfPresent(lib, o)
    ensures r == Ok(None) <==> o.None?
    ensures o.Some? && r.Ok? ==> Ok(r.value.value) == DecodeTransaction(lib, o.value)
    ensures o.Some? && r.Err? ==> r.error == DecodeTransaction(lib, o.value).error
  {
    Transpose(OptionMap(o, s => DecodeTransaction(lib, s)))
  }

  /** The `Ok(Swap { .. })` expression of `swap`: setup, swap and cleanup are decoded in
      that order, and the first failure is returned. */
  function DecodeSwap(lib: Lib, response: SwapResponse): (r: Result<Swap, Error>)
    // success exactly when every present transaction decodes
    ensures r.Ok? <==>
              && DecodesIfPresent(lib, response.setupTransaction)
              && DecodeTransaction(lib, response.swapTransaction).Ok?
              && DecodesIfPresent(lib, response.cleanupTransaction)
    // the optional parts are absent exactly when the response lacked them
    ensures r.Ok? ==>
              && (r.value.setup.None? <==> response.setupTransaction.None?)
              && (r.value.cleanup.None? <==> response.cleanupTransaction.None?)
              && (r.value.setup.Some? ==> Ok(r.value.setup.value) == DecodeTransaction(lib, response.setupTransaction.value))
              && Ok(r.value.swap) == DecodeTransaction(lib, response.swapTransaction)
              && (r.value.cleanup.Some? ==> Ok(r.value.cleanup.value) == DecodeTransaction(lib, response.cleanupTransaction.value))
    // errors come in field order: setup, then swap, then cleanup
    ensures !DecodesIfPresent(lib, response.setupTransaction) ==>
              r == Err(DecodeTransaction(lib, response.setupTransaction.value).error)
    ensures DecodesIfPresent(lib, response.setupTransaction) && DecodeTransaction(lib, response.swapTransaction).Err? ==>
              r == Err(DecodeTransaction(lib, response.swapTransaction).error)
    ensures DecodesIfPresent(lib, response.setupTransaction) && DecodeTransaction(lib, response.swapTransaction).Ok?
            && !DecodesIfPresent(lib, response.cleanupTransaction) ==>
              r == Err(DecodeTransaction(lib, response.cleanupTransaction.value).error)
  {
    var setup :- DecodeOptionalTransaction(lib, response.setupTransaction);
    var swap :- DecodeTransaction(lib, response.swapTransaction);
    var cleanup :- DecodeOptionalTransaction(lib, response.cleanupTransaction);
    Ok(Swap(setup, swap, cleanup))
  }

  /** A transaction as the remote service sends it: bincode, then base64. */
  function EncodeTransaction(lib: Lib, t: Transaction): string
  {
    lib.base64Encode(lib.bincodeSerialize(t))
  }

  /** A swap response as the remote service sends it. */
  function EncodeSwap(lib: Lib, s: Swap): (r: SwapResponse)
    ensures r.setupTransaction.None? <==> s.setup.None?
    ensures r.cleanupTransaction.None? <==> s.cleanup.None?
  {
    SwapResponse(
      OptionMap(s.setup, t => EncodeTransaction(lib, t)),
      EncodeTransaction(lib, s.swap),
      OptionMap(s.cleanup, t => EncodeTransaction(lib, t)))
  }

  /** `decode` reads back every transaction, given that base64 and bincode each read
      back what they write. */
  lemma DecodeEncodeTransaction(lib: Lib, t: Transaction)
    requires Base64RoundTrips(lib) && BincodeRoundTrips(lib)
    ensures DecodeTransaction(lib, EncodeTransaction(lib, t)) == Ok(t)
  {
    assert lib.base64Decode(EncodeTransaction(lib, t)) == Ok(lib.bincodeSerialize(t));
  }

  /** `swap` reads back every swap response, present and absent parts alike. */
  lemma DecodeSwapRoundTrip(lib: Lib, s: Swap)
    requires Base64RoundTrips(lib) && BincodeRoundTrips(lib)
    ensures DecodeSwap(lib, EncodeSwap(lib, s)) == Ok(s)
  {
    var response := EncodeSwap(lib, s);
    DecodeEncodeTransaction(lib, s.swap);
    if s.setup.Some? {
      DecodeEncodeTransaction(lib, s.setup.value);
      assert response.setupTransaction.value == EncodeTransaction(lib, s.setup.value);
    }
    if s.cleanup.Some? {
      DecodeEncodeTransaction(lib, s.cleanup.value);
      assert response.cleanupTransaction.value == EncodeTransaction(lib, s.cleanup.value);
    }
  }

  // ---------------------------------------------------------------------------
  // route_map: expanding the indexed route map

  /** The `mint_keys` step of `route_map`: every string is parsed as a pubkey, and the
      first that fails is the error. */
  function ParseMintKeys(lib: Lib, mintKeys: seq<string>): (r: Result<seq<Pubkey>, Error>)
    ensures r.Ok? <==> forall i :: 0 <= i < |mintKeys| ==> lib.pubkeyFromStr(mintKeys[i]).Ok?
    ensures r.Ok? ==> |r.value| == |mintKeys|
    ensures r.Ok? ==> forall i :: 0 <= i < |mintKeys| ==> lib.pubkeyFromStr(mintKeys[i]) == Ok(r.value[i])
    ensures forall i :: 0 <= i < |mintKeys| && (forall j :: 0 <= j < i ==> lib.pubkeyFromStr(mintKeys[j]).Ok?)
                        && lib.pubkeyFromStr(mintKeys[i]).Err? ==>
              r == Err(ParsePubkey(lib.pubkeyFromStr(mintKeys[i]).error))
  {
    var f := (s: string) => lib.pubkeyFromStr(s).MapErr(e => ParsePubkey(e));
    var r := TryMap(f, mintKeys);
    assert forall i :: 0 <= i < |mintKeys| && (forall j :: 0 <= j < i ==> lib.pubkeyFromStr(mintKeys[j]).Ok?) ==>
             AllOkBefore(f, mintKeys, i);
    r
  }

  /** The mint keys parse back from their strings, given that `Pubkey::from_str`
      parses what `Pubkey::to_string` prints. */
  lemma ParseMintKeysRoundTrip(lib: Lib, keys: seq<Pubkey>)
    requires PubkeyStringsRoundTrip(lib)
    ensures ParseMintKeys(lib, seq(|keys|, i requires 0 <= i < |keys| => lib.pubkeyToString(keys[i]))) == Ok(keys)
  {
    var strings := seq(|keys|, i requires 0 <= i < |keys| => lib.pubkeyToString(keys[i]));
    forall i | 0 <= i < |keys|
      ensures lib.pubkeyFromStr(strings[i]) == Ok(keys[i])
    {
      assert strings[i] == lib.pubkeyToString(keys[i]);
    }
    var r := ParseMintKeys(lib, strings);
    assert r.Ok? && r.value == keys;
  }

  /** Every index of the indexed route map, as key or as target, is below `n`. */
  predicate IndicesBelow(indexed: map<nat, seq<nat>>, n: nat)
  {
    forall from :: from in indexed ==> from < n && forall j :: 0 <= j < |indexed[from]| ==> indexed[from][j] < n
  }

  /** No two mint keys are the same pubkey. */
  predicate Distinct(keys: seq<Pubkey>)
  {
    forall i, j :: 0 <= i < |keys| && 0 <= j < |keys| && i != j ==> keys[i] != keys[j]
  }

  /** `to_indices.into_iter().map(|i| mint_keys[i]).collect()`. */
  function ExpandIndices(keys: seq<Pubkey>, tos: seq<nat>): (r: seq<Pubkey>)
    requires forall j :: 0 <= j < |tos| ==> tos[j] < |keys|
    ensures |r| == |tos|
    ensures forall j :: 0 <= j < |tos| ==> r[j] == keys[tos[j]]
  {
    if tos == [] then [] else [keys[tos[0]]] + ExpandIndices(keys, tos[1..])
  }

  /** `keyOf` takes no two indices to the same key. */
  ghost predicate InjectiveOn<K>(keyOf: map<nat, K>)
  {
    forall f, g :: f in keyOf && g in keyOf && f != g ==> keyOf[f] != keyOf[g]
  }

  /** The keys of the indices in `done`. */
  ghost function KeysOf<K>(keyOf: map<nat, K>, done: set<nat>): set<K>
    requires done <= keyOf.Keys
  {
    set f | f in done :: keyOf[f]
  }

  /** Each entry of `m` holds the value of a visited index with that key: what a loop of
      `m.insert(keyOf[f], valueOf[f])` over the indices in `done` leaves, whatever the
      visiting order. */
  ghost predicate ValuesFrom<K, V>(keyOf: map<nat, K>, valueOf: map<nat, V>, done: set<nat>, m: map<K, V>)
    requires done <= keyOf.Keys && done <= valueOf.Keys
  {
    forall k :: k in m ==> exists f :: f in done && keyOf[f] == k && m[k] == valueOf[f]
  }

  /** Each visited index's value is kept under its key: what the same loop leaves when
      no two indices share a key. */
  ghost predicate Kept<K, V>(keyOf: map<nat, K>, valueOf: map<nat, V>, done: set<nat>, m: map<K, V>)
    requires done <= keyOf.Keys && done <= valueOf.Keys
  {
    forall f :: f in done ==> keyOf[f] in m && m[keyOf[f]] == valueOf[f]
  }

  /** There are at most as many keys as indices, and exactly as many when no two
      indices share a key. */
  lemma {:induction false} KeysOfSize<K>(keyOf: map<nat, K>, done: set<nat>)
    requires done <= keyOf.Keys
    ensures |KeysOf(keyOf, done)| <= |done|
    ensures InjectiveOn(keyOf) ==> |KeysOf(keyOf, done)| == |done|
    decreases done
  {
    if done != {} {
      var f :| f in done;
      var rest := done - {f};
      KeysOfSize(keyOf, rest);
      assert KeysOf(keyOf, done) == KeysOf(keyOf, rest) + {keyOf[f]};
      if InjectiveOn(keyOf) {
        assert keyOf[f] !in KeysOf(keyOf, rest);
      }
    }
  }

  /** An insert adds its key to the key set. */
  lemma InsertKeys<K, V>(keyOf: map<nat, K>, done: set<nat>, m: map<K, V>, from: nat, v: V)
    requires done <= keyOf.Keys && from in keyOf
    requires m.Keys == KeysOf(keyOf, done)
    ensures m[keyOf[from] := v].Keys == KeysOf(keyOf, done + {from})
  {
    assert m[keyOf[from] := v].Keys == m.Keys + {keyOf[from]};
  }

  /** An insert keeps `ValuesFrom`, whether or not it overwrites. */
  lemma InsertValues<K, V>(keyOf: map<nat, K>, valueOf: map<nat, V>, done: set<nat>, m: map<K, V>, from: nat)
    requires done <= keyOf.Keys && done <= valueOf.Keys && from in keyOf && from in valueOf
    requires ValuesFrom(keyOf, valueOf, done, m)
    ensures ValuesFrom(keyOf, valueOf, done + {from}, m[keyOf[from] := valueOf[from]])
  {
    var m' := m[keyOf[from] := valueOf[from]];
    forall k | k in m'
      ensures exists f :: f in done + {from} && keyOf[f] == k && m'[k] == valueOf[f]
    {
      if k != keyOf[from] {
        var f :| f in done && keyOf[f] == k && m[k] == valueOf[f];
        assert f in done + {from};
      } else {
        assert from in done + {from};
      }
    }
  }

  /** With distinct keys an insert never overwrites. */
  lemma InsertKept<K, V>(keyOf: map<nat, K>, valueOf: map<nat, V>, done: set<nat>, m: map<K, V>, from: nat)
    requires done <= keyOf.Keys && done <= valueOf.Keys && from in keyOf && from in valueOf && from !in done
    requires InjectiveOn(keyOf)
    requires Kept(keyOf, valueOf, done, m)
    ensures Kept(keyOf, valueOf, done + {from}, m[keyOf[from] := valueOf[from]])
  {
    forall f | f in done
      ensures keyOf[f] != keyOf[from]
    {
      assert f != from;
    }
  }

  /** Everything the insert loop keeps about the map it builds. */
  ghost predicate BuiltFrom<K, V>(keyOf: map<nat, K>, valueOf: map<nat, V>, done: set<nat>, m: map<K, V>)
    requires done <= keyOf.Keys && done <= valueOf.Keys
  {
    && m.Keys == KeysOf(keyOf, done)
    && ValuesFrom(keyOf, valueOf, done, m)
    && (InjectiveOn(keyOf) ==> Kept(keyOf, valueOf, done, m))
  }

  /** One more insert keeps `BuiltFrom`. */
  lemma InsertKeepsBuiltFrom<K, V>(keyOf: map<nat, K>, valueOf: map<nat, V>, done: set<nat>, m: map<K, V>, from: nat)
    requires done <= keyOf.Keys && done <= valueOf.Keys && from in keyOf && from in valueOf && from !in done
    requires BuiltFrom(keyOf, valueOf, done, m)
    ensures BuiltFrom(keyOf, valueOf, done + {from}, m[keyOf[from] := valueOf[from]])
  {
    InsertKeys(keyOf, done, m, from, valueOf[from]);
    InsertValues(keyOf, valueOf, done, m, from);
    if InjectiveOn(keyOf) {
      InsertKept(keyOf, valueOf, done, m, from);
    }
  }

  /** The mint key of each indexed-map key. */
  ghost function KeyMap(keys: seq<Pubkey>, indexed: map<nat, seq<nat>>): (r: map<nat, Pubkey>)
    requires IndicesBelow(indexed, |keys|)
    ensures r.Keys == indexed.Keys
    ensures forall from :: from in indexed ==> r[from] == keys[from]
  {
    map from | from in indexed :: keys[from]
  }

  /** The expanded target list of each indexed-map key. */
  ghost function ValueMap(keys: seq<Pubkey>, indexed: map<nat, seq<nat>>): (r: map<nat, seq<Pubkey>>)
    requires IndicesBelow(indexed, |keys|)
    ensures r.Keys == indexed.Keys
    ensures forall from :: from in indexed ==> r[from] == ExpandIndices(keys, indexed[from])
  {
    map from | from in indexed :: ExpandIndices(keys, indexed[from])
  }

  lemma KeysOfIndexed(keys: seq<Pubkey>, indexed: map<nat, seq<nat>>)
    requires IndicesBelow(indexed, |keys|)
    ensures KeysOf(KeyMap(keys, indexed), indexed.Keys) == set from | from in indexed :: keys[from]
  {
    var keyOf := KeyMap(keys, indexed);
    forall k | k in KeysOf(keyOf, indexed.Keys)
      ensures k in set from | from in indexed :: keys[from]
    {
      var from :| from in indexed && keyOf[from] == k;
    }
    forall k | k in set from | from in indexed :: keys[from]
      ensures k in KeysOf(keyOf, indexed.Keys)
    {
      var from :| from in indexed && keys[from] == k;
    }
  }

  lemma ValuesFromIndexed(keys: seq<Pubkey>, indexed: map<nat, seq<nat>>, m: map<Pubkey, seq<Pubkey>>)
    requires IndicesBelow(indexed, |keys|)
    requires ValuesFrom(KeyMap(keys, indexed), ValueMap(keys, indexed), indexed.Keys, m)
    ensures forall k :: k in m ==>
              exists from :: from in indexed && keys[from] == k && m[k] == ExpandIndices(keys, indexed[from])
  {
    var keyOf, valueOf := KeyMap(keys, indexed), ValueMap(keys, indexed);
    forall k | k in m
      ensures exists from :: from in indexed && keys[from] == k && m[k] == ExpandIndices(keys, indexed[from])
    {
      var from :| from in indexed && keyOf[from] == k && m[k] == valueOf[from];
      assert keys[from] == k;
    }
  }

  lemma DistinctKeyMap(keys: seq<Pubkey>, indexed: map<nat, seq<nat>>)
    requires IndicesBelow(indexed, |keys|) && Distinct(keys)
    ensures InjectiveOn(KeyMap(keys, indexed))
  {
  }

  /** One turn of the `for` loop of `route_map` keeps `BuiltFrom`. */
  lemma InsertEntryKeepsBuiltFrom(keys: seq<Pubkey>, indexed: map<nat, seq<nat>>, done: set<nat>,
                                  m: map<Pubkey, seq<Pubkey>>, from: nat)
    requires IndicesBelow(indexed, |keys|) && done <= indexed.Keys && from in indexed && from !in done
    requires BuiltFrom(KeyMap(keys, indexed), ValueMap(keys, indexed), done, m)
    ensures BuiltFrom(KeyMap(keys, indexed), ValueMap(keys, indexed), done + {from},
                      m[keys[from] := ExpandIndices(keys, indexed[from])])
  {
    InsertKeepsBuiltFrom(KeyMap(keys, indexed), ValueMap(keys, indexed), done, m, from);
  }

  /** What the finished loop has built, stated over the mint keys and the indexed map. */
  lemma BuiltFromIndexed(keys: seq<Pubkey>, indexed: map<nat, seq<nat>>, m: map<Pubkey, seq<Pubkey>>)
    requires IndicesBelow(indexed, |keys|)
    requires BuiltFrom(KeyMap(keys, indexed), ValueMap(keys, indexed), indexed.Keys, m)
    ensures m.Keys == set from | from in indexed :: keys[from]
    ensures forall k :: k in m ==>
              exists from :: from in indexed && keys[from] == k && m[k] == ExpandIndices(keys, indexed[from])
    ensures |m| <= |indexed|
  {
    KeysOfIndexed(keys, indexed);
    ValuesFromIndexed(keys, indexed, m);
    KeysOfSize(KeyMap(keys, indexed), indexed.Keys);
  }

  /** With distinct mint keys the finished loop has kept one entry per indexed entry. */
  lemma BuiltFromDistinct(keys: seq<Pubkey>, indexed: map<nat, seq<nat>>, m: map<Pubkey, seq<Pubkey>>)
    requires IndicesBelow(indexed, |keys|)
    requires BuiltFrom(KeyMap(keys, indexed), ValueMap(keys, indexed), indexed.Keys, m)
    ensures Distinct(keys) ==>
              && |m| == |indexed|
              && forall from :: from in indexed ==> keys[from] in m && m[keys[from]] == ExpandIndices(keys, indexed[from])
  {
    if Distinct(keys) {
      DistinctKeyMap(keys, indexed);
      KeysOfSize(KeyMap(keys, indexed), indexed.Keys);
    }
  }

  /** The `for` loop of `route_map`: one insert per indexed-map entry, visiting the
      entries in an unspecified (hash map) order. */
  method InsertEntries(keys: seq<Pubkey>, indexed: map<nat, seq<nat>>) returns (routeMap: map<Pubkey, seq<Pubkey>>)
    requires IndicesBelow(indexed, |keys|)
    ensures BuiltFrom(KeyMap(keys, indexed), ValueMap(keys, indexed), indexed.Keys, routeMap)
  {
    routeMap := map[];
    var remaining := indexed.Keys;
    ghost var done: set<nat> := {};
    while remaining != {}
      invariant remaining + done == indexed.Keys && remaining !! done
      invariant BuiltFrom(KeyMap(keys, indexed), ValueMap(keys, indexed), done, routeMap)
      decreases remaining
    {
      var from :| from in remaining;
      InsertEntryKeepsBuiltFrom(keys, indexed, done, routeMap, from);
      routeMap := routeMap[keys[from] := ExpandIndices(keys, indexed[from])];
      remaining := remaining - {from};
      done := done + {from};
    }
    assert done == indexed.Keys;
  }

  /** The route map the loop of `route_map` builds from the parsed mint keys. */
  method ExpandRouteMap(keys: seq<Pubkey>, indexed: map<nat, seq<nat>>) returns (routeMap: map<Pubkey, seq<Pubkey>>)
    requires IndicesBelow(indexed, |keys|)
    // the keys are the mint keys of the indexed map's keys
    ensures routeMap.Keys == set from | from in indexed :: keys[from]
    // every entry expands some indexed entry with that key
    ensures forall k :: k in routeMap ==>
              exists from :: from in indexed && keys[from] == k && routeMap[k] == ExpandIndices(keys, indexed[from])
    ensures |routeMap| <= |indexed|
    // with distinct mint keys, every indexed entry is kept, expanded in order
    ensures Distinct(keys) ==>
              && |routeMap| == |indexed|
              && forall from :: from in indexed ==> keys[from] in routeMap && routeMap[keys[from]] == ExpandIndices(keys, indexed[from])
  {
    routeMap := InsertEntries(keys, indexed);
    BuiltFromIndexed(keys, indexed, routeMap);
    BuiltFromDistinct(keys, indexed, routeMap);
  }

  /** `route_map` after the response arrives: parse the mint keys, then expand the
      indexed map. Indexing out of range panics in the source; that can only happen once
      the mint keys parsed, so only then are the indices required to be in range. */
  method RouteMap(lib: Lib, mintKeys: seq<string>, indexed: map<nat, seq<nat>>)
    returns (r: Result<map<Pubkey, seq<Pubkey>>, Error>)
    requires (forall i :: 0 <= i < |mintKeys| ==> lib.pubkeyFromStr(mintKeys[i]).Ok?) ==> IndicesBelow(indexed, |mintKeys|)
    // fails exactly when a mint key does not parse, with the parse step's (first) error,
    // before any entry is built
    ensures r.Err? <==> ParseMintKeys(lib, mintKeys).Err?
    ensures r.Err? ==> r.error == ParseMintKeys(lib, mintKeys).error
    ensures r.Ok? ==> var keys := ParseMintKeys(lib, mintKeys).value;
              && r.value.Keys == (set from | from in indexed :: keys[from])
              && |r.value| <= |indexed|
              && (forall k :: k in r.value ==>
                    exists from :: from in indexed && keys[from] == k && r.value[k] == ExpandIndices(keys, indexed[from]))
              && (Distinct(keys) ==> |r.value| == |indexed|)
              && (Distinct(keys) ==>
                    forall from :: from in indexed ==> keys[from] in r.value && r.value[keys[from]] == ExpandIndices(keys, indexed[from]))
  {
    var keys :- ParseMintKeys(lib, mintKeys);
    var routeMap := ExpandRouteMap(keys, indexed);
    r := Ok(routeMap);
  }
}
