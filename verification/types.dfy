/**
 * Vocabulary of the reactor: the readiness categories, the statuses Run
 * returns, the error kinds it raises, the descriptor limit and the shapes of
 * the registration tables and readiness sets.
 */
module ReactorTypes {

  /** Upper bound on descriptors, and on the number of entries per category. */
  const Limit: int := 1024

  /** Number of readiness categories. */
  const UsageCount: nat := 3

  /**
   * A readiness category. The declaration order is the order in which Run
   * scans the categories after a wake.
   */
  datatype Usage = Except | Read | Write
  {
    /** Position of the category in the table array and in the scan order. */
    function Index(): (i: nat)
      ensures i < UsageCount
    {
      match this
      case Except => 0
      case Read => 1
      case Write => 2
    }
  }

  /** The category stored at position `i` of the table array. */
  function UsageAt(i: nat): (u: Usage)
    requires i < UsageCount
    ensures u.Index() == i
  {
    if i == 0 then Except else if i == 1 then Read else Write
  }

  /** Positions and categories are in one-to-one correspondence. */
  lemma UsageIndexRoundTrip(u: Usage, i: nat)
    requires i < UsageCount
    ensures UsageAt(u.Index()) == u
    ensures UsageAt(i).Index() == i
  {
  }

  /** What Run returns when it returns normally. */
  datatype Status = StopCalled | Empty

  /**
   * The error kinds the reactor raises. The first four are the reactor's own
   * exception classes; the last two are the plain standard errors that the
   * readiness wait throws.
   */
  datatype ReactorError =
    | RepeatingFD
    | NonValidFD
    | RemovingNonExistingFD
    | FDsOverflow
    | SelectInvalidFD
    | SelectAllocation

  /** The two standard families the exception classes derive from. */
  datatype ErrorFamily = LogicError | RuntimeError

  /** The family each error kind belongs to. */
  function Family(e: ReactorError): ErrorFamily
  {
    match e
    case RepeatingFD => LogicError
    case NonValidFD => LogicError
    case RemovingNonExistingFD => LogicError
    case FDsOverflow => RuntimeError
    case SelectInvalidFD => LogicError
    case SelectAllocation => RuntimeError
  }

  /** Whether the error is one of the reactor's own exception classes. */
  predicate IsReactorException(e: ReactorError)
  {
    e in {RepeatingFD, NonValidFD, RemovingNonExistingFD, FDsOverflow}
  }

  /**
   * Usage errors are the reactor's logic exceptions; the only runtime
   * exception of the reactor's own is the table overflow.
   */
  lemma ErrorTaxonomy(e: ReactorError)
    ensures IsReactorException(e) && Family(e) == LogicError <==>
              e in {RepeatingFD, NonValidFD, RemovingNonExistingFD}
    ensures IsReactorException(e) && Family(e) == RuntimeError <==> e == FDsOverflow
    ensures !IsReactorException(e) ==>
              (Family(e) == LogicError <==> e == SelectInvalidFD)
  {
  }

  datatype Result<T> = Ok(value: T) | Err(error: ReactorError)

  datatype Option<T> = None | Some(value: T)

  /** Opaque identity of a registered callback. */
  type CallbackId = nat

  /** One category's registration table: descriptor to callback. */
  type Table = map<int, CallbackId>

  /** The three registration tables, indexed by `Usage.Index()`. */
  type Tables = t: seq<Table> | |t| == 3 witness [map[], map[], map[]]

  /** Three descriptor sets, indexed by `Usage.Index()`. */
  type FdSets = s: seq<set<int>> | |s| == 3 witness [{}, {}, {}]

  /** A callback chosen for invocation: its category, descriptor and identity. */
  datatype Dispatch = Dispatch(usage: Usage, fd: int, callback: CallbackId)
}
