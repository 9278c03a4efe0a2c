/**
 * The cluster control plane as the library sees it: one namespace holding
 * deployments with replica counts, reached through a scale read and a scale
 * update.  Either call may fail; the failure that the next call of each kind
 * would meet is part of the state (`getFault`, `updateFault`).  Both calls are
 * counted, so that callers can state how many requests they issued.
 */
module ControlPlane {
  import opened Wrappers

  /** Go's `int32`, the type of a replica count. */
  newtype int32 = x: int | -0x8000_0000 <= x < 0x8000_0000

  /** Go's `numPods + delta` on `int32`: two's-complement wrap-around. */
  function AddInt32(a: int32, delta: int32): int32
  {
    ((a as int + delta as int + 0x8000_0000) % 0x1_0000_0000 - 0x8000_0000) as int32
  }

  datatype Error =
    | ApiFailure(message: string)     // network, permission, conflict, ... reported by the control plane
    | NotFound(deployment: string)    // the named deployment does not exist
    | ClueNotFound(clue: string)      // no listed deployment name was bound to this clue

  /** The text of the error the name resolution returns for a missing clue. */
  function ClueNotFoundMessage(clue: string): string
  {
    "Deployment name containing clue " + clue + " was not found"
  }

  class Cluster {
    var replicas: map<string, int32>
    var getFault: Option<string>
    var updateFault: Option<string>
    var getCalls: nat
    var updateCalls: nat

    constructor (replicas: map<string, int32>)
      ensures this.replicas == replicas && getFault == None && updateFault == None
      ensures getCalls == 0 && updateCalls == 0
    {
      this.replicas := replicas;
      getFault, updateFault := None, None;
      getCalls, updateCalls := 0, 0;
    }

    /** What a scale read of `name` returns in the current state. */
    function Observed(name: string): Result<int32, Error>
      reads this
    {
      if getFault.Some? then Failure(ApiFailure(getFault.value))
      else if name !in replicas then Failure(NotFound(name))
      else Success(replicas[name])
    }

    /** `GetScale`: one read request. */
    method GetScale(name: string) returns (r: Result<int32, Error>)
      modifies this`getCalls
      ensures getCalls == old(getCalls) + 1
      ensures r == Observed(name)
    {
      getCalls := getCalls + 1;
      if getFault.Some? {
        r := Failure(ApiFailure(getFault.value));
      } else if name !in replicas {
        r := Failure(NotFound(name));
      } else {
        r := Success(replicas[name]);
      }
    }

    /** `UpdateScale`: one write request; on success the post-update count is returned. */
    method UpdateScale(name: string, n: int32) returns (r: Result<int32, Error>)
      modifies this`replicas, this`updateCalls
      ensures updateCalls == old(updateCalls) + 1
      ensures updateFault.Some? ==> r == Failure(ApiFailure(updateFault.value)) && replicas == old(replicas)
      ensures updateFault.None? && name !in old(replicas) ==> r == Failure(NotFound(name)) && replicas == old(replicas)
      ensures updateFault.None? && name in old(replicas) ==> r == Success(n) && replicas == old(replicas)[name := n]
    {
      updateCalls := updateCalls + 1;
      if updateFault.Some? {
        r := Failure(ApiFailure(updateFault.value));
      } else if name !in replicas {
        r := Failure(NotFound(name));
      } else {
        replicas := replicas[name := n];
        r := Success(n);
      }
    }
  }

  /** The `*int32` a caller passes to receive the observed replica count. */
  class Int32Cell {
    var value: int32

    constructor (value: int32)
      ensures this.value == value
    {
      this.value := value;
    }
  }
}
