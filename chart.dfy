/**
  The state of one cylinder's history chart: the rolling window it plots.
  Each poll tick fetches both sensor histories; when both arrive the window
  is replaced by the merge of the reconciled points, and when either fetch
  fails the error is reported and the window is left as it was.
 */
module HistoryChart {
  import opened Wrappers
  import opened Readings
  import Reconciler
  import RollingWindow

  class CylinderHistory {
    /** The timestamp parser (`new Date(ts).getTime()`). */
    const parse: Parser
    /** The points the chart plots (the component's `data` state). */
    var window: seq<Point>

    /**
      What every tick keeps: the window is bounded, holds only valid
      timestamps, none twice, in chronological order.
     */
    ghost predicate Valid()
      reads this
    {
      && |window| <= RollingWindow.Capacity
      && AllParse(parse, window)
      && DistinctTs(window)
      && RollingWindow.Chronological(parse, window)
    }

    /** A chart starts with an empty window (`useState([])`). */
    constructor (parse: Parser)
      ensures Valid()
      ensures this.parse == parse && window == []
    {
      this.parse := parse;
      window := [];
    }

    /**
      One run of `fetchHistory`, given the outcome of the two fetches
      (`None` for a fetch that failed or did not return a history).
      `reported` tells whether the error path was taken.
     */
    method Tick(avancado: Option<seq<Sample>>, recuado: Option<seq<Sample>>) returns (reported: bool)
      requires Valid()
      modifies this
      ensures Valid()
      ensures reported <==> avancado.None? || recuado.None?
      ensures reported ==> window == old(window)
      ensures !reported ==>
        window == RollingWindow.Merge(parse, old(window),
          Reconciler.Reconcile(parse, avancado.value, recuado.value))
    {
      if avancado.None? || recuado.None? {
        return true;
      }
      var points := Reconciler.Reconcile(parse, avancado.value, recuado.value);
      RollingWindow.MergeChronological(parse, window, points);
      RollingWindow.MergeDistinct(parse, window, points);
      window := RollingWindow.Merge(parse, window, points);
      reported := false;
    }
  }
}
