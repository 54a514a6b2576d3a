/** One `Arc`: a payload slot guarded by a 32-bit reference count. Each
    method of the Java class is a pure function from the Arc's state to either
    its new state or the exception the method throws. The compare-and-swap
    retry loops are taken as single atomic steps. */
module ArcCell {
  import opened Results

  const INT_MAX: int := 0x7fff_ffff
  const INT_MIN: int := -0x8000_0000

  /** A Java `int`. */
  type Int32 = x: int | INT_MIN <= x <= INT_MAX

  /** Identity of a freelist node; each node is paired with exactly one Arc
      for its whole life, so the id names the Arc as well. */
  type NodeId = nat

  /** A payload produced by the pool's factory; only its identity matters. */
  datatype Payload = Payload(serial: nat)

  /** The fields of an Arc: its node (fixed), the pool's consumer mask as it
      was when the Arc was built (fixed), the reference count, and the
      payload, which is absent once an over-capacity return has dropped it. */
  datatype Arc = Arc(node: NodeId, consumerMask: bv64, refCount: Int32, value: Option<Payload>)

  /** The exceptions the core throws. */
  datatype ArcError =
    | ZeroReference   // ZeroReferenceException from get or copy
    | CountOverflow   // "Reference count overflow" from copy
    | CountUnderflow  // "Reference count underflow" from release
    | NotZeroOnInit   // "Reference count is not zero while initializing"
    | AccessDenied    // AccessDeniedException from checkAccess

  /** `Arc.get`: the payload, but only while some reference is held. */
  function Get(a: Arc): (r: Result<Option<Payload>, ArcError>)
    ensures r.Success? <==> a.refCount > 0
    ensures r.Failure? ==> r.error == ZeroReference
    ensures r.Success? ==> r.value == a.value
  {
    if a.refCount <= 0 then Failure(ZeroReference) else Success(a.value)
  }

  /** `Arc.copy`: one more reference to the same Arc. A dead Arc cannot be
      copied, and the count is never raised to `Integer.MAX_VALUE`. */
  function Copy(a: Arc): (r: Result<Arc, ArcError>)
    ensures r.Success? <==> 0 < a.refCount < INT_MAX - 1
    ensures a.refCount <= 0 ==> r == Failure(ZeroReference)
    ensures 0 < a.refCount && INT_MAX - 1 <= a.refCount ==> r == Failure(CountOverflow)
    ensures r.Success? ==> r.value.refCount == a.refCount + 1 <= INT_MAX - 1
    ensures r.Success? ==> r.value.node == a.node && r.value.consumerMask == a.consumerMask
    ensures r.Success? ==> r.value.value == a.value
  {
    if a.refCount <= 0 then Failure(ZeroReference)
    else if a.refCount >= INT_MAX - 1 then Failure(CountOverflow)
    else Success(a.(refCount := a.refCount + 1))
  }

  /** `Arc.initializeReference`: the pool's 0 -> 1 transition. */
  function InitializeReference(a: Arc): (r: Result<Arc, ArcError>)
    ensures r.Success? <==> a.refCount == 0
    ensures r.Failure? ==> r.error == NotZeroOnInit
    ensures r.Success? ==> r.value.refCount == 1
    ensures r.Success? ==> r.value.node == a.node && r.value.consumerMask == a.consumerMask
    ensures r.Success? ==> r.value.value == a.value
  {
    if a.refCount == 0 then Success(a.(refCount := 1)) else Failure(NotZeroOnInit)
  }

  /** The state after a successful decrement, and whether the count read just
      before the decrement was 1 (the only reading that hands the Arc back). */
  datatype Decremented = Decremented(arc: Arc, wasLast: bool)

  /** The reference-count half of `Arc.release`; the hand-back to the pool is
      in the pool model. */
  function Decrement(a: Arc): (r: Result<Decremented, ArcError>)
    ensures r.Success? <==> a.refCount > 0
    ensures r.Failure? ==> r.error == CountUnderflow
    ensures r.Success? ==> r.value.arc.refCount == a.refCount - 1 >= 0
    ensures r.Success? ==> r.value.arc.node == a.node && r.value.arc.consumerMask == a.consumerMask
    ensures r.Success? ==> r.value.arc.value == a.value
    ensures r.Success? ==> (r.value.wasLast <==> a.refCount == 1)
  {
    if a.refCount <= 0 then Failure(CountUnderflow)
    else Success(Decremented(a.(refCount := a.refCount - 1), a.refCount == 1))
  }

  /** A release undoes a copy, and never as the last reference. */
  lemma ReleaseUndoesCopy(a: Arc)
    requires Copy(a).Success?
    ensures Decrement(Copy(a).value) == Success(Decremented(a, false))
  {
  }

  /** A copy undoes a release that was not the last one. */
  lemma CopyUndoesRelease(a: Arc)
    requires Decrement(a).Success? && !Decrement(a).value.wasLast
    requires a.refCount < INT_MAX
    ensures Copy(Decrement(a).value.arc) == Success(a)
  {
  }

  /** One reference epoch: initialisation from 0 followed by a release is the
      last reference, and leaves the Arc exactly as it was. */
  lemma InitializeThenReleaseIsLast(a: Arc)
    requires a.refCount == 0
    ensures Decrement(InitializeReference(a).value) == Success(Decremented(a, true))
  {
  }

  /** A sequence of copies and releases performed on one Arc. */
  datatype RefOp = CopyOp | ReleaseOp

  function Occurrences(ops: seq<RefOp>, op: RefOp): nat
  {
    if ops == [] then 0
    else (if ops[0] == op then 1 else 0) + Occurrences(ops[1..], op)
  }

  /** Perform the operations in order, stopping at the first exception. */
  function ApplyAll(a: Arc, ops: seq<RefOp>): Result<Arc, ArcError>
    decreases |ops|
  {
    if ops == [] then Success(a)
    else
      var step := if ops[0] == CopyOp then Copy(a)
                  else match Decrement(a)
                    case Success(d) => Success(d.arc)
                    case Failure(e) => Failure(e);
      match step
      case Success(b) => ApplyAll(b, ops[1..])
      case Failure(e) => Failure(e)
  }

  /** When every operation succeeds, the count is the starting count plus
      the copies minus the releases, it never went negative, and nothing but
      the count changed. */
  lemma {:induction false} CountIsCopiesMinusReleases(a: Arc, ops: seq<RefOp>)
    requires ApplyAll(a, ops).Success?
    ensures ApplyAll(a, ops).value.refCount
         == a.refCount + Occurrences(ops, CopyOp) - Occurrences(ops, ReleaseOp)
    ensures a.refCount >= 0 ==> ApplyAll(a, ops).value.refCount >= 0
    ensures ApplyAll(a, ops).value.node == a.node
    ensures ApplyAll(a, ops).value.consumerMask == a.consumerMask
    ensures ApplyAll(a, ops).value.value == a.value
    decreases |ops|
  {
    if ops != [] {
      if ops[0] == CopyOp {
        CountIsCopiesMinusReleases(Copy(a).value, ops[1..]);
      } else {
        CountIsCopiesMinusReleases(Decrement(a).value.arc, ops[1..]);
      }
    }
  }

  /** Releasing more often than the references held plus the copies made
      cannot go through: some release throws (or an earlier copy did). */
  lemma OverReleaseFails(a: Arc, ops: seq<RefOp>)
    requires a.refCount >= 0
    requires Occurrences(ops, ReleaseOp) > a.refCount + Occurrences(ops, CopyOp)
    ensures ApplyAll(a, ops).Failure?
  {
    if ApplyAll(a, ops).Success? {
      CountIsCopiesMinusReleases(a, ops);
    }
  }
}
