/**
 * The reader protocol every stream of the crate follows, and a source that may
 * behave in any way the protocol allows: short reads of any size, and a failure
 * at any moment.
 */
module Streams {
  import opened Bytes

  /** What a read can fail with. `Io` is the caller's own reader failing. */
  datatype Fault =
    | WrongPassword
    | Changed
    | NotBlockMultiple
    | UnexpectedEof
    | MemberTooShort
    | MemberTooLong
    | BadDeflate
    | OutputLimit
    | Io(code: int)

  datatype ReadResult = Data(bytes: seq<Byte>) | Failed(fault: Fault)

  /**
   * What a reader stands for: the bytes it yields in order, whether it may report
   * a clean end after them, and the faults it may raise instead.
   */
  datatype Target = Target(data: seq<Byte>, clean: bool, faults: set<Fault>) {
    predicate Feasible() {
      clean || faults != {}
    }
    function From(k: nat): Target
      requires k <= |data|
    {
      this.(data := data[k..])
    }
  }

  /** One read of at most `n` bytes, from `before` bytes released to `after`. */
  ghost predicate Serves(t: Target, before: seq<Byte>, n: nat, r: ReadResult, after: seq<Byte>) {
    match r
    case Data(bytes) =>
      && |bytes| <= n
      && after == before + bytes
      && after <= t.data
      && (bytes == [] && n > 0 ==> before == t.data && t.clean)
    case Failed(f) =>
      && f in t.faults
      && after == before <= t.data
  }

  /** Any reader at all that stands for `target`. */
  class Source {
    const target: Target
    var served: nat

    ghost predicate Valid()
      reads this
    {
      served <= |target.data| && target.Feasible()
    }

    ghost function Released(): seq<Byte>
      requires Valid()
      reads this
    {
      target.data[..served]
    }

    constructor (t: Target)
      requires t.Feasible()
      ensures Valid() && target == t && served == 0
    {
      target := t;
      served := 0;
    }

    method Read(n: nat) returns (r: ReadResult)
      requires Valid()
      modifies this
      ensures Valid()
      ensures Serves(target, old(Released()), n, r, Released())
      ensures r.Data? ==> served == old(served) + |r.bytes|
      ensures r.Data? ==> r.bytes == target.data[old(served)..served]
      ensures r.Failed? ==> served == old(served)
    {
      if n == 0 {
        return Data([]);
      }
      var refuse: bool := *;
      if target.faults != {} && (refuse || (served == |target.data| && !target.clean)) {
        var f :| f in target.faults;
        return Failed(f);
      }
      if served == |target.data| {
        return Data([]);
      }
      var most := Min(n, |target.data| - served);
      var k: nat :| 1 <= k <= most;
      r := Data(target.data[served..served + k]);
      assert target.data[..served + k] == target.data[..served] + target.data[served..served + k];
      served := served + k;
    }
  }

  /**
   * Stands in for a reader proved to serve `t`: whatever that reader may answer, this
   * source may answer too.
   */
  method StandIn(t: Target) returns (src: Source)
    requires t.Feasible()
    ensures fresh(src) && src.Valid() && src.target == t && src.served == 0
  {
    src := new Source(t);
  }

  /**
   * `read_full`: reads until `n` bytes arrived or the reader ended. A short
   * result means the reader reported a clean end.
   */
  method ReadFull(src: Source, n: nat) returns (r: ReadResult)
    requires src.Valid()
    modifies src
    ensures src.Valid()
    ensures r.Data? ==>
              && src.served == old(src.served) + |r.bytes|
              && r.bytes == src.target.data[old(src.served)..src.served]
              && |r.bytes| == Min(n, |src.target.data| - old(src.served))
              && (|r.bytes| < n ==> src.target.clean)
    ensures r.Failed? ==> r.fault in src.target.faults && old(src.served) <= src.served
  {
    var got: seq<Byte> := [];
    while |got| < n
      invariant src.Valid() && |got| <= n
      invariant src.served == old(src.served) + |got|
      invariant got == src.target.data[old(src.served)..src.served]
      decreases n - |got|
    {
      var piece := src.Read(n - |got|);
      match piece {
        case Failed(_) => return piece;
        case Data(bytes) =>
          if bytes == [] {
            break;
          }
          got := got + bytes;
      }
    }
    r := Data(got);
  }
}
