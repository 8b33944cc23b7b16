/** The base of every processing algorithm: uniform construction and the
    exception containment of `process`. */
module BaseAlgorithms {
  import opened Common

  /** How a call of an algorithm's `_process` ends: it returns a record, or
      it raises an exception, leaving behind the record it was given with
      whatever changes it made in place before raising. */
  datatype Outcome = Returned(record: Record) | Raised(partial: Record)

  /** `BaseProcessAlgorithm.process`: the record `_process` returns, or,
      when `_process` raises, the record that was handed to it, in place
      changes included. The exception never reaches the caller. */
  function Process(processImpl: Record -> Outcome, record: Record): (r: Record)
    ensures processImpl(record).Returned? ==> r == processImpl(record).record
    ensures processImpl(record).Raised? ==> r == processImpl(record).partial
  {
    match processImpl(record)
    case Returned(out) => out
    case Raised(partial) => partial
  }

  /** `BaseProcessAlgorithm._process`: raises NotImplementedError before
      touching the record. */
  function BaseProcessImpl(record: Record): (o: Outcome)
    ensures o.Raised? && o.partial == record
  {
    Raised(record)
  }

  /** On a bare base algorithm `process` hands back its input. */
  lemma BaseProcessIsIdentity(record: Record)
    ensures Process(BaseProcessImpl, record) == record
  {
  }

  /** An algorithm that raises before changing anything leaves the record
      as it was, and so does one that returns the record untouched: the
      caller cannot tell the two apart. */
  lemma ProcessContainsEarlyRaise(processImpl: Record -> Outcome, record: Record)
    requires processImpl(record) == Raised(record) || processImpl(record) == Returned(record)
    ensures Process(processImpl, record) == record
  {
  }

  /** `BaseAlgorithm`: construction names the logger after the class and
      then runs the class's own initialisation. */
  class BaseAlgorithm {
    var logger: string

    constructor(className: string)
      ensures logger == className
    {
      logger := className;
      new;
      Init();
    }

    /** The default `_init` does nothing. */
    method Init()
      ensures unchanged(this)
    {
    }
  }
}
