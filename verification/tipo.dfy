/** The closed set of beer styles a record may carry, each with its display label. */
module Enums {

  datatype Tipo = Lager | Malzbier | Witbier | Weiss | Ale | Ipa | Stout

  /** The human-readable label the enumeration attaches to each style. Each
      label belongs to exactly one style. */
  function Descricao(t: Tipo): (d: string)
    ensures t == Lager <==> d == "Lager"
    ensures t == Malzbier <==> d == "Malzbier"
    ensures t == Witbier <==> d == "Witbier"
    ensures t == Weiss <==> d == "Weiss"
    ensures t == Ale <==> d == "Ale"
    ensures t == Ipa <==> d == "IPA"
    ensures t == Stout <==> d == "Stout"
  {
    match t
    case Lager => "Lager"
    case Malzbier => "Malzbier"
    case Witbier => "Witbier"
    case Weiss => "Weiss"
    case Ale => "Ale"
    case Ipa => "IPA"
    case Stout => "Stout"
  }

  /** Labels are pairwise distinct, so a label identifies its style. */
  lemma DescricaoInjective(t: Tipo, u: Tipo)
    ensures Descricao(t) == Descricao(u) ==> t == u
  {
  }
}
