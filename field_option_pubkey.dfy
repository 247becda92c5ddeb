/** `field_option_pubkey`: the module's serializer for an optional pubkey field, a
    second copy of the one in `field_pubkey::option`. */
module FieldOptionPubkey {
  import opened Results
  import opened Foreign
  import opened Serde
  import FieldPubkey

  /** `serialize`: a present pubkey as its string, an absent one as `null`. */
  function Serialize(lib: Lib, t: Option<Pubkey>): (r: Json)
    ensures r.Null? <==> t.None?
    ensures t.Some? ==> r.String? && r.s == lib.pubkeyToString(t.value)
  {
    if t.None? then Null else String(lib.pubkeyToString(t.value))
  }

  /** The two serializers for optional pubkeys agree on every input. */
  lemma SameAsFieldPubkeyOption(lib: Lib, t: Option<Pubkey>)
    ensures Serialize(lib, t) == FieldPubkey.OptionSerialize(lib, t)
  {
  }
}
