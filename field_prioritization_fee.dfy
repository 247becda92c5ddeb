/** `field_prioritization_fee`: the JSON the swap request carries for its
    `prioritizationFeeLamports` field. The enum it serializes is declared at the crate
    root, which is not part of this model; its variants are taken from the serializer's
    own match, with unsigned amounts as `nat`. */
module FieldPrioritizationFee {
  import opened Serde

  /** `PriorityLevel`, written by serde in camelCase. */
  datatype PriorityLevel = Medium | High | VeryHigh

  /** `PrioritizationFeeLamports`. */
  datatype PrioritizationFeeLamports =
    | Auto
    | Exact(lamports: nat)
    | AutoMultiplier(multiplier: nat)
    | JitoTipLamports(lamports: nat)
    | PriorityLevelWithMaxLamports(priorityLevel: PriorityLevel, maxLamports: nat)

  /** The derived serializer of a unit variant: its camelCase name as a string. */
  function PriorityLevelJson(level: PriorityLevel): (r: Json)
    ensures r.String?
  {
    match level
    case Medium => String("medium")
    case High => String("high")
    case VeryHigh => String("veryHigh")
  }

  /** Distinct priority levels have distinct names. */
  lemma PriorityLevelJsonInjective(a: PriorityLevel, b: PriorityLevel)
    requires PriorityLevelJson(a) == PriorityLevelJson(b)
    ensures a == b
  {
  }

  /** `serialize`: one JSON shape per variant. The JSON kind tells `Auto` (a string)
      and `Exact` (a number) from the rest, which are one-key objects told apart by
      their key. */
  function Serialize(fee: PrioritizationFeeLamports): (r: Json)
    ensures fee.Auto? <==> r.String?
    ensures r.String? ==> r.s == "auto"
    ensures fee.Exact? <==> r.Number?
    ensures fee.Exact? ==> r.n == fee.lamports
    ensures fee.AutoMultiplier? <==> r.Object? && "autoMultiplier" in r.fields
    ensures fee.AutoMultiplier? ==> r.fields == map["autoMultiplier" := Number(fee.multiplier)]
    ensures fee.JitoTipLamports? <==> r.Object? && "jitoTipLamports" in r.fields
    ensures fee.JitoTipLamports? ==> r.fields == map["jitoTipLamports" := Number(fee.lamports)]
    ensures fee.PriorityLevelWithMaxLamports? <==> r.Object? && "priorityLevelWithMaxLamports" in r.fields
    ensures fee.PriorityLevelWithMaxLamports? ==>
              r.fields == map["priorityLevelWithMaxLamports" :=
                                Object(map["priorityLevel" := PriorityLevelJson(fee.priorityLevel),
                                           "maxLamports" := Number(fee.maxLamports)])]
    ensures r.Object? ==> |r.fields| == 1
  {
    match fee
    case Auto => String("auto")
    case Exact(lamports) => Number(lamports)
    case AutoMultiplier(multiplier) => Object(map["autoMultiplier" := Number(multiplier)])
    case JitoTipLamports(lamports) => Object(map["jitoTipLamports" := Number(lamports)])
    case PriorityLevelWithMaxLamports(level, maxLamports) =>
      Object(map["priorityLevelWithMaxLamports" :=
                   Object(map["priorityLevel" := PriorityLevelJson(level), "maxLamports" := Number(maxLamports)])])
  }

  /** Different fees serialize differently: the JSON determines the fee. */
  lemma SerializeInjective(a: PrioritizationFeeLamports, b: PrioritizationFeeLamports)
    requires Serialize(a) == Serialize(b)
    ensures a == b
  {
    if a.PriorityLevelWithMaxLamports? {
      var inner := Serialize(a).fields["priorityLevelWithMaxLamports"];
      assert inner.fields["priorityLevel"] == PriorityLevelJson(a.priorityLevel);
      assert inner.fields["priorityLevel"] == PriorityLevelJson(b.priorityLevel);
      PriorityLevelJsonInjective(a.priorityLevel, b.priorityLevel);
      assert inner.fields["maxLamports"] == Number(a.maxLamports) == Number(b.maxLamports);
    } else if a.AutoMultiplier? {
      assert Serialize(a).fields["autoMultiplier"] == Number(a.multiplier) == Number(b.multiplier);
    } else if a.JitoTipLamports? {
      assert Serialize(a).fields["jitoTipLamports"] == Number(a.lamports) == Number(b.lamports);
    }
  }
}
