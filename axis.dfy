/** The labels of the chart's value axis (`formatYAxis`). */
module AxisLabels {
  import opened Readings

  /** The label of an axis tick: each plotted position has one, any other value none. */
  function FormatYAxis(tick: real): (text: string)
    ensures text != "" <==> tick == 1.0 || tick == 0.0 || tick == 0.5
  {
    if tick == 1.0 then "Avançado"
    else if tick == 0.0 then "Recuado"
    else if tick == 0.5 then "Indefinido"
    else ""
  }

  /**
    Every position plots at a labelled tick, and different positions get
    different labels (a corollary of `PositionLabels`).
   */
  lemma LabelsDistinguishPositions(p: Position, q: Position)
    ensures FormatYAxis(p.Valor()) != ""
    ensures FormatYAxis(p.Valor()) == FormatYAxis(q.Valor()) ==> p == q
  {
  }

  /**
    Each position is labelled by its own name: an extended cylinder plots at
    the tick labelled "Avançado", a retracted one at "Recuado" and an
    undefined one at "Indefinido".
   */
  lemma PositionLabels()
    ensures FormatYAxis(Extended.Valor()) == "Avançado"
    ensures FormatYAxis(Retracted.Valor()) == "Recuado"
    ensures FormatYAxis(Undefined.Valor()) == "Indefinido"
  {
  }
}
