/** `field_instruction`: reading Solana instructions from the JSON the swap-instructions
    endpoint returns, where the program id and account pubkeys are base58 strings and
    the instruction data is a base64 string. `instruction` reads one, `option_instruction`
    one or `null`, `vec_instruction` an array of them. */
module FieldInstruction {
  import opened Results
  import opened Foreign
  import opened Serde

  // ---------------------------------------------------------------------------
  // The wire structs read by `#[derive(Deserialize)]` with camelCase field names

  /** `AccountMetaFields`. */
  datatype AccountMetaFields = AccountMetaFields(pubkey: string, isSigner: bool, isWritable: bool)

  /** `InstructionFields`. */
  datatype InstructionFields = InstructionFields(accounts: seq<AccountMetaFields>, data: string, programId: string)

  const AccountMetaFieldNames: seq<string> := ["pubkey", "isSigner", "isWritable"]
  const InstructionFieldNames: seq<string> := ["accounts", "data", "programId"]

  /** `AccountMetaFields::deserialize`. Every failure is serde's own. */
  function ReadAccountMetaFields(v: Json): (r: Result<AccountMetaFields, DeError>)
    ensures r.Err? ==> r.error == Malformed
  {
    var fields :- StructFields(v, AccountMetaFieldNames);
    var pubkey :- AsString(fields[0]);
    var isSigner :- AsBool(fields[1]);
    var isWritable :- AsBool(fields[2]);
    Ok(AccountMetaFields(pubkey, isSigner, isWritable))
  }

  /** An account as a JSON object under its camelCase field names. */
  function WriteAccountMetaFields(a: AccountMetaFields): (r: Json)
    ensures r.Object? && r.fields.Keys == {"pubkey", "isSigner", "isWritable"}
  {
    Object(map["pubkey" := String(a.pubkey), "isSigner" := Bool(a.isSigner), "isWritable" := Bool(a.isWritable)])
  }

  /** The derived deserializer reads back an account written as an object. */
  lemma ReadWriteAccountMetaFields(a: AccountMetaFields)
    ensures ReadAccountMetaFields(WriteAccountMetaFields(a)) == Ok(a)
  {
    var v := WriteAccountMetaFields(a);
    var fields := StructFields(v, AccountMetaFieldNames);
    assert fields.Ok?;
    assert fields.value[0] == String(a.pubkey) && fields.value[1] == Bool(a.isSigner) && fields.value[2] == Bool(a.isWritable);
  }

  /** `InstructionFields::deserialize`. Every failure is serde's own. */
  function ReadInstructionFields(v: Json): (r: Result<InstructionFields, DeError>)
    ensures r.Err? ==> r.error == Malformed
  {
    var fields :- StructFields(v, InstructionFieldNames);
    var items :- AsArray(fields[0]);
    var accounts :- TryMap(ReadAccountMetaFields, items);
    var data :- AsString(fields[1]);
    var programId :- AsString(fields[2]);
    Ok(InstructionFields(accounts, data, programId))
  }

  /** The instruction fields as a JSON object under their camelCase names. */
  function WriteInstructionFields(f: InstructionFields): (r: Json)
    ensures r.Object? && r.fields.Keys == {"accounts", "data", "programId"}
  {
    Object(map[
      "accounts" := Array(seq(|f.accounts|, i requires 0 <= i < |f.accounts| => WriteAccountMetaFields(f.accounts[i]))),
      "data" := String(f.data),
      "programId" := String(f.programId)])
  }

  /** The derived deserializer reads back instruction fields written as an object. */
  lemma ReadWriteInstructionFields(f: InstructionFields)
    ensures ReadInstructionFields(WriteInstructionFields(f)) == Ok(f)
  {
    var v := WriteInstructionFields(f);
    var fields := StructFields(v, InstructionFieldNames);
    assert fields.Ok?;
    var items := seq(|f.accounts|, i requires 0 <= i < |f.accounts| => WriteAccountMetaFields(f.accounts[i]));
    assert fields.value[0] == Array(items);
    forall i | 0 <= i < |items|
      ensures ReadAccountMetaFields(items[i]) == Ok(f.accounts[i])
    {
      ReadWriteAccountMetaFields(f.accounts[i]);
    }
    var accounts := TryMap(ReadAccountMetaFields, items);
    assert accounts.Ok? && accounts.value == f.accounts;
  }

  // ---------------------------------------------------------------------------
  // instruction

  /** The closure of `instruction::deserialize` that turns one account's fields into an
      `AccountMeta`: only the pubkey can fail. */
  function AccountFromFields(lib: Lib, a: AccountMetaFields): (r: Result<AccountMeta, DeError>)
    ensures r.Ok? <==> lib.pubkeyFromStr(a.pubkey).Ok?
    ensures r.Ok? ==> r.value == AccountMeta(lib.pubkeyFromStr(a.pubkey).value, a.isSigner, a.isWritable)
    ensures r.Err? ==> r.error == AccountPubkey(lib.pubkeyFromStr(a.pubkey).error)
  {
    var pubkey :- lib.pubkeyFromStr(a.pubkey).MapErr(e => AccountPubkey(e));
    Ok(AccountMeta(pubkey, a.isSigner, a.isWritable))
  }

  /** Every account pubkey before index `i` parses. */
  predicate AccountsParseBefore(lib: Lib, accounts: seq<AccountMetaFields>, i: nat)
    requires i <= |accounts|
  {
    forall j :: 0 <= j < i ==> lib.pubkeyFromStr(accounts[j].pubkey).Ok?
  }

  /** `instruction::deserialize` once the fields are read: parse the program id, then
      each account pubkey in order, then decode the data. */
  function DeserializeFields(lib: Lib, f: InstructionFields): (r: Result<Instruction, DeError>)
    // succeeds exactly when the program id, every account pubkey and the data decode
    ensures r.Ok? <==>
              && lib.pubkeyFromStr(f.programId).Ok?
              && AccountsParseBefore(lib, f.accounts, |f.accounts|)
              && lib.base64Decode(f.data).Ok?
    // the instruction holds what was decoded; accounts keep their length, order and flags
    ensures r.Ok? ==>
              && r.value.programId == lib.pubkeyFromStr(f.programId).value
              && |r.value.accounts| == |f.accounts|
              && (forall i :: 0 <= i < |f.accounts| ==>
                    r.value.accounts[i] ==
                      AccountMeta(lib.pubkeyFromStr(f.accounts[i].pubkey).value, f.accounts[i].isSigner, f.accounts[i].isWritable))
              && r.value.data == lib.base64Decode(f.data).value
    // errors in order: program id, then the first bad account pubkey, then the data
    ensures lib.pubkeyFromStr(f.programId).Err? ==>
              r == Err(ProgramId(lib.pubkeyFromStr(f.programId).error))
    ensures lib.pubkeyFromStr(f.programId).Ok? ==>
              forall i :: 0 <= i < |f.accounts| && AccountsParseBefore(lib, f.accounts, i)
                          && lib.pubkeyFromStr(f.accounts[i].pubkey).Err? ==>
                r == Err(AccountPubkey(lib.pubkeyFromStr(f.accounts[i].pubkey).error))
    ensures lib.pubkeyFromStr(f.programId).Ok? && AccountsParseBefore(lib, f.accounts, |f.accounts|)
            && lib.base64Decode(f.data).Err? ==>
              r == Err(Data(lib.base64Decode(f.data).error))
  {
    var programId :- lib.pubkeyFromStr(f.programId).MapErr(e => ProgramId(e));
    var convert := (a: AccountMetaFields) => AccountFromFields(lib, a);
    assert forall i :: 0 <= i <= |f.accounts| && AccountsParseBefore(lib, f.accounts, i) ==>
             AllOkBefore(convert, f.accounts, i);
    var accounts :- TryMap(convert, f.accounts);
    var data :- lib.base64Decode(f.data).MapErr(e => Data(e));
    Ok(Instruction(programId, accounts, data))
  }

  /** `instruction::deserialize`: read the wire struct, then decode its fields. */
  function Deserialize(lib: Lib, v: Json): (r: Result<Instruction, DeError>)
    // serde's own error exactly when the JSON does not have the struct's shape
    ensures r == Err(Malformed) <==> ReadInstructionFields(v).Err?
    ensures ReadInstructionFields(v).Ok? ==> r == DeserializeFields(lib, ReadInstructionFields(v).value)
  {
    var fields :- ReadInstructionFields(v);
    DeserializeFields(lib, fields)
  }

  /** The JSON the remote service sends for an instruction: the program id and account
      pubkeys as base58 strings and the data as standard base64. */
  function Serialize(lib: Lib, ins: Instruction): (r: Json)
    ensures r.Object? && r.fields.Keys == {"accounts", "data", "programId"}
  {
    WriteInstructionFields(InstructionFields(
      seq(|ins.accounts|, i requires 0 <= i < |ins.accounts| =>
        AccountMetaFields(lib.pubkeyToString(ins.accounts[i].pubkey), ins.accounts[i].isSigner, ins.accounts[i].isWritable)),
      lib.base64Encode(ins.data),
      lib.pubkeyToString(ins.programId)))
  }

  /** `instruction::deserialize` reads back every instruction, given that the pubkey
      and base64 libraries parse what they print. */
  lemma RoundTrip(lib: Lib, ins: Instruction)
    requires PubkeyStringsRoundTrip(lib) && Base64RoundTrips(lib)
    ensures Deserialize(lib, Serialize(lib, ins)) == Ok(ins)
  {
    var accounts := seq(|ins.accounts|, i requires 0 <= i < |ins.accounts| =>
      AccountMetaFields(lib.pubkeyToString(ins.accounts[i].pubkey), ins.accounts[i].isSigner, ins.accounts[i].isWritable));
    var f := InstructionFields(accounts, lib.base64Encode(ins.data), lib.pubkeyToString(ins.programId));
    ReadWriteInstructionFields(f);
    assert lib.pubkeyFromStr(f.programId) == Ok(ins.programId);
    assert lib.base64Decode(f.data) == Ok(ins.data);
    forall i | 0 <= i < |accounts|
      ensures lib.pubkeyFromStr(accounts[i].pubkey) == Ok(ins.accounts[i].pubkey)
    {
      assert accounts[i].pubkey == lib.pubkeyToString(ins.accounts[i].pubkey);
    }
    var r := DeserializeFields(lib, f);
    assert r.Ok?;
    assert r.value.accounts == ins.accounts;
  }

  // ---------------------------------------------------------------------------
  // option_instruction

  /** `option_instruction::deserialize`: `null` is no instruction; anything else must be
      an instruction, and its error is wrapped. */
  function OptionDeserialize(lib: Lib, v: Json): (r: Result<Option<Instruction>, DeError>)
    ensures v.Null? ==> r == Ok(None)
    ensures !v.Null? ==> (r.Ok? <==> Deserialize(lib, v).Ok?)
    ensures !v.Null? && r.Ok? ==> r.value == Some(Deserialize(lib, v).value)
    ensures !v.Null? && r.Err? ==> r.error == OptionalInstruction(Deserialize(lib, v).error)
  {
    match v
    case Null => Ok(None)
    case _ =>
      match Deserialize(lib, v)
      case Ok(instruction) => Ok(Some(instruction))
      case Err(e) => Err(OptionalInstruction(e))
  }

  /** An optional instruction as the remote service sends it. */
  function OptionSerialize(lib: Lib, o: Option<Instruction>): (r: Json)
    ensures r.Null? <==> o.None?
  {
    match o
    case None => Null
    case Some(ins) => Serialize(lib, ins)
  }

  /** `option_instruction::deserialize` reads back every optional instruction. */
  lemma OptionRoundTrip(lib: Lib, o: Option<Instruction>)
    requires PubkeyStringsRoundTrip(lib) && Base64RoundTrips(lib)
    ensures OptionDeserialize(lib, OptionSerialize(lib, o)) == Ok(o)
  {
    if o.Some? {
      RoundTrip(lib, o.value);
    }
  }

  // ---------------------------------------------------------------------------
  // vec_instruction

  /** Every element before index `i` is an instruction. */
  predicate InstructionsBefore(lib: Lib, values: seq<Json>, i: nat)
    requires i <= |values|
  {
    forall j :: 0 <= j < i ==> Deserialize(lib, values[j]).Ok?
  }

  /** What `vec_instruction::deserialize` returns: the JSON must be an array; its
      elements are read in order and the first error, wrapped, is returned. */
  function InstructionsFromJson(lib: Lib, v: Json): (r: Result<seq<Instruction>, DeError>)
    ensures !v.Array? ==> r == Err(Malformed)
    // succeeds exactly when every element is an instruction
    ensures v.Array? ==> (r.Ok? <==> InstructionsBefore(lib, v.items, |v.items|))
    // same length, same order
    ensures v.Array? && r.Ok? ==>
              && |r.value| == |v.items|
              && forall i :: 0 <= i < |v.items| ==> Deserialize(lib, v.items[i]) == Ok(r.value[i])
    // the first element that fails decides the error
    ensures v.Array? ==>
              forall i :: 0 <= i < |v.items| && InstructionsBefore(lib, v.items, i) && Deserialize(lib, v.items[i]).Err? ==>
                r == Err(VecInstruction(Deserialize(lib, v.items[i]).error))
  {
    var values :- AsArray(v);
    var convert := (x: Json) => Deserialize(lib, x).MapErr(e => VecInstruction(e));
    assert forall i :: 0 <= i <= |values| && InstructionsBefore(lib, values, i) ==> AllOkBefore(convert, values, i);
    TryMap(convert, values)
  }

  /** `vec_instruction::deserialize`: the loop that reads each element and pushes the
      instruction, returning at the first error. */
  method VecDeserialize(lib: Lib, v: Json) returns (r: Result<seq<Instruction>, DeError>)
    ensures r == InstructionsFromJson(lib, v)
  {
    var values :- AsArray(v);
    var instructions: seq<Instruction> := [];
    for k := 0 to |values|
      invariant |instructions| == k
      invariant forall i :: 0 <= i < k ==> Deserialize(lib, values[i]) == Ok(instructions[i])
    {
      var instruction :- Deserialize(lib, values[k]).MapErr(e => VecInstruction(e));
      instructions := instructions + [instruction];
    }
    ghost var spec := InstructionsFromJson(lib, v);
    assert spec.Ok? && spec.value == instructions;
    r := Ok(instructions);
  }

  /** A list of instructions as the remote service sends it. */
  function VecSerialize(lib: Lib, instructions: seq<Instruction>): (r: Json)
    ensures r.Array? && |r.items| == |instructions|
    ensures forall i :: 0 <= i < |instructions| ==> r.items[i] == Serialize(lib, instructions[i])
  {
    Array(seq(|instructions|, i requires 0 <= i < |instructions| => Serialize(lib, instructions[i])))
  }

  /** `vec_instruction::deserialize` reads back every list of instructions. */
  lemma VecRoundTrip(lib: Lib, instructions: seq<Instruction>)
    requires PubkeyStringsRoundTrip(lib) && Base64RoundTrips(lib)
    ensures InstructionsFromJson(lib, VecSerialize(lib, instructions)) == Ok(instructions)
  {
    var v := VecSerialize(lib, instructions);
    forall i | 0 <= i < |instructions|
      ensures Deserialize(lib, v.items[i]) == Ok(instructions[i])
    {
      RoundTrip(lib, instructions[i]);
    }
    var r := InstructionsFromJson(lib, v);
    assert r.Ok? && r.value == instructions;
  }
}
