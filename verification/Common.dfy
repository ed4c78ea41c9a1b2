/** Shared vocabulary of the model: optional values and the fate of one remote call. */
module Common {

  datatype Option<+T> = None | Some(value: T)

  /** What becomes of one call to a remote service. The caller sees success only when the call was
      acknowledged; a call that timed out may still have been applied on the other side. */
  datatype Fate = Acknowledged | NotApplied | AppliedButReportedFailed {
    predicate Applied(): (applied: bool)
      ensures applied <==> this == Acknowledged || this == AppliedButReportedFailed
    {
      !NotApplied?
    }
  }

  /** The environment's choice: the fate of the n-th call made to one remote service. */
  type Fates = nat -> Fate

  ghost predicate Distinct<T(!new)>(s: seq<T>) {
    forall i, j :: 0 <= i < j < |s| ==> s[i] != s[j]
  }

  function Last<T>(s: seq<T>): T
    requires s != []
  {
    s[|s| - 1]
  }

  function Init<T>(s: seq<T>): seq<T>
    requires s != []
  {
    s[..|s| - 1]
  }
}
