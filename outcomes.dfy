/** What a sampler run produces.  Every sampler is a generator: it yields lines one at a
    time and may raise part-way through.  A run is therefore modelled by the lines it yields
    and, when it stops by raising, the error it raises. */
module Outcomes {

  datatype Option<+T> = None | Some(value: T)

  /** The exceptions the samplers and the dispatcher can raise. */
  datatype Error =
    | NoHeader                      // `next(lines)` on an empty source (RuntimeError under PEP 479)
    | ColumnNotFound(col: string)   // `header.index(col)` raises ValueError
    | FieldMissing                  // `row[col_index]` raises IndexError
    | UnknownMethod(name: string)   // the dispatcher's ValueError('Unknown method: ...')
    | MissingArgument(key: string)  // `kwargs[key]` raises KeyError

  /** `Emitted(lines)`: the generator ran to completion and yielded `lines`.
      `Raised(prefix, error)`: it yielded `prefix`, then raised `error`. */
  datatype Outcome =
    | Emitted(lines: seq<string>)
    | Raised(prefix: seq<string>, error: Error)

  /** The lines a consumer receives from the run, however it ends. */
  function Produced(o: Outcome): seq<string>
  {
    match o
    case Emitted(lines) => lines
    case Raised(prefix, _) => prefix
  }

  /** Running the generator `first` and then, if it completed, the generator `second`:
      the streaming composition of two runs. */
  function Then(first: Outcome, second: Outcome): (r: Outcome)
    ensures first.Raised? ==> r == first
    ensures first.Emitted? ==> Produced(r) == first.lines + Produced(second)
    ensures first.Emitted? ==> (r.Raised? <==> second.Raised?)
    ensures r.Raised? && first.Emitted? ==> r.error == second.error
  {
    match first
    case Raised(_, _) => first
    case Emitted(l1) =>
      match second
      case Emitted(l2) => Emitted(l1 + l2)
      case Raised(p2, e) => Raised(l1 + p2, e)
  }

  /** Prepending the lines `ls` already yielded to a run. */
  function Prepend(ls: seq<string>, o: Outcome): (r: Outcome)
    ensures Produced(r) == ls + Produced(o)
    ensures r.Raised? <==> o.Raised?
    ensures r.Raised? ==> r.error == o.error
  {
    Then(Emitted(ls), o)
  }

  /** Running three stages in sequence does not depend on how they are grouped. */
  lemma {:induction false} ThenAssociative(a: Outcome, b: Outcome, c: Outcome)
    ensures Then(Then(a, b), c) == Then(a, Then(b, c))
  {
    match a
    case Raised(_, _) =>
    case Emitted(la) =>
      match b
      case Raised(_, _) =>
      case Emitted(lb) =>
        match c
        case Emitted(lc) => assert la + lb + lc == la + (lb + lc);
        case Raised(pc, _) => assert la + lb + pc == la + (lb + pc);
  }
}
