/**
  The values the history chart works on: raw sensor samples as the history
  endpoint returns them, the derived three-valued position of a cylinder and
  the reconciled chart points, plus the facts about timestamps that both
  stages share.
 */
module Readings {
  import opened Wrappers

  /** One raw reading `{ ts, valor }` of one proximity sensor. */
  datatype Sample = Sample(ts: string, valor: int)

  /** The derived position of a cylinder at one instant. */
  datatype Position = Extended | Retracted | Undefined
  {
    /** The number the chart plots for this position (1, 0 or 0.5). */
    function Valor(): (v: real)
      ensures 0.0 <= v <= 1.0
    {
      match this
      case Extended => 1.0
      case Retracted => 0.0
      case Undefined => 0.5
    }
  }

  /** One reconciled point `{ ts, valor }` of a cylinder's chart. */
  datatype Point = Point(ts: string, valor: Position)

  /**
    Stand-in for `new Date(ts).getTime()`: a timestamp string either denotes
    an instant (in milliseconds) or is invalid (`None`, JavaScript's NaN).
   */
  type Parser = string -> Option<int>

  /** `ts` denotes a valid instant. */
  predicate Parses(parse: Parser, ts: string) {
    parse(ts).Some?
  }

  /** Every point of `s` has a valid timestamp. */
  predicate AllParse(parse: Parser, s: seq<Point>) {
    forall p :: p in s ==> Parses(parse, p.ts)
  }

  /**
    The set of timestamp strings of `s` (the `Set` built from
    `s.map(d => d.ts)`). The `ensures` only exposes the comprehension to the
    verifier, in the index form the proofs use.
   */
  function Stamps(s: seq<Point>): (r: set<string>)
    ensures forall i :: 0 <= i < |s| ==> s[i].ts in r
    ensures forall t :: t in r ==> exists i :: 0 <= i < |s| && s[i].ts == t
  {
    set p | p in s :: p.ts
  }

  /** No two points of `s` share a timestamp string. */
  predicate DistinctTs(s: seq<Point>) {
    forall i, j :: 0 <= i < j < |s| ==> s[i].ts != s[j].ts
  }
}
