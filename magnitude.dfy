/** The magnitude formatter `formata_numero`: a value is divided by 1000
    while it is at least 1000, at most twice, and labelled with the unit
    of the last step ("", "mil", then "milhões"). The two-decimal rendering
    of the scaled value is a parameter `fixed2` of the formatter. */
module Magnitude {

  datatype Unit = Units | Mil | Milhoes

  /** The label printed after the number. */
  function Label(u: Unit): string
  {
    match u
    case Units => ""
    case Mil => "mil"
    case Milhoes => "milhões"
  }

  /** How many original units one scaled unit stands for. */
  function Factor(u: Unit): real
  {
    match u
    case Units => 1.0
    case Mil => 1000.0
    case Milhoes => 1000000.0
  }

  /** The value to print and the unit to print after it. */
  datatype Scaled = Scaled(value: real, unit: Unit)

  /** The units the loop walks through before the final "milhões". */
  const LoopUnits: seq<Unit> := [Units, Mil]

  /** The unit of step `i`: the loop's units, then "milhões". */
  function StepUnit(i: nat): Unit
    requires i <= |LoopUnits|
  {
    if i < |LoopUnits| then LoopUnits[i] else Milhoes
  }

  /** The formatter's loop from step `i` on, with the value already
      divided `i` times. The result stands for the same amount as `v` in
      the unit of step `i`, and is below 1000 unless its unit is the last. */
  function ScaleFrom(v: real, i: nat): (r: Scaled)
    requires i <= |LoopUnits|
    ensures r.value * Factor(r.unit) == v * Factor(StepUnit(i))
    ensures r.unit != Milhoes ==> r.value < 1000.0
    decreases |LoopUnits| - i
  {
    if i == |LoopUnits| then Scaled(v, Milhoes)
    else if v < 1000.0 then Scaled(v, LoopUnits[i])
    else ScaleFrom(v / 1000.0, i + 1)
  }

  /** The scaled value and unit `formata_numero` chooses for `v`. */
  function Magnitude(v: real): (m: Scaled)
    ensures m.value * Factor(m.unit) == v
    ensures m.unit != Milhoes ==> m.value < 1000.0
  {
    ScaleFrom(v, 0)
  }

  /** The text: prefix, space, two-decimal number, space, unit label. */
  function Render(prefix: string, s: Scaled, fixed2: real -> string): string
  {
    prefix + " " + fixed2(s.value) + " " + Label(s.unit)
  }

  /** The three unit thresholds, stated on the original value: below 1000
      unscaled, below one million in thousands, otherwise in millions,
      however large (no unit above "milhões"). */
  lemma MagnitudeThresholds(v: real)
    ensures v < 1000.0 ==> Magnitude(v) == Scaled(v, Units)
    ensures 1000.0 <= v < 1000000.0 ==> Magnitude(v) == Scaled(v / 1000.0, Mil)
    ensures 1000000.0 <= v ==> Magnitude(v) == Scaled(v / 1000000.0, Milhoes)
  {
    if 1000.0 <= v {
      assert ScaleFrom(v, 0) == ScaleFrom(v / 1000.0, 1);
      if 1000000.0 <= v {
        assert v / 1000.0 >= 1000.0;
        assert ScaleFrom(v / 1000.0, 1) == ScaleFrom(v / 1000.0 / 1000.0, 2);
      }
    }
  }

  /** Scaling loses nothing: the printed value times its unit's factor is
      the original value, and the printed value is below 1000 unless the
      unit is the last one, and at least 1 unless no division happened. */
  lemma MagnitudeRescales(v: real)
    ensures Magnitude(v).value * Factor(Magnitude(v).unit) == v
    ensures Magnitude(v).unit != Milhoes ==> Magnitude(v).value < 1000.0
    ensures Magnitude(v).unit != Units ==> 1.0 <= Magnitude(v).value
    ensures Magnitude(v).unit == Units <==> v < 1000.0
  {
    MagnitudeThresholds(v);
  }

  /** `formata_numero(valor, prefixo)`, with its `for` loop over the
      units '' and 'mil' and its early return. */
  method FormatNumber(valor: real, prefixo: string, fixed2: real -> string) returns (text: string)
    ensures text == Render(prefixo, Magnitude(valor), fixed2)
  {
    var v := valor;
    for i := 0 to |LoopUnits|
      invariant ScaleFrom(v, i) == Magnitude(valor)
    {
      if v < 1000.0 {
        return prefixo + " " + fixed2(v) + " " + Label(LoopUnits[i]);
      }
      v := v / 1000.0;
    }
    text := prefixo + " " + fixed2(v) + " " + "milhões";
  }

  /** The formatted text for the three ranges, on the original value. */
  lemma {:induction false} FormatNumberText(prefix: string, v: real, fixed2: real -> string)
    ensures v < 1000.0 ==> Render(prefix, Magnitude(v), fixed2) == prefix + " " + fixed2(v) + " "
    ensures 1000.0 <= v < 1000000.0 ==>
      Render(prefix, Magnitude(v), fixed2) == prefix + " " + fixed2(v / 1000.0) + " mil"
    ensures 1000000.0 <= v ==>
      Render(prefix, Magnitude(v), fixed2) == prefix + " " + fixed2(v / 1000000.0) + " milhões"
  {
    MagnitudeThresholds(v);
  }
}
