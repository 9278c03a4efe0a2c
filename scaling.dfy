/** Reading and the guarded update of a deployment's replica count. */
module Scaling {
  import opened Wrappers
  import opened ControlPlane

  /**
   * `GetNumberOfPods`: one scale read.  On failure the count is Go's zero
   * value and the error is the control plane's, unchanged.
   */
  method GetNumberOfPods(kubectl: Cluster, deploymentName: string) returns (n: int32, err: Option<Error>)
    modifies kubectl`getCalls
    ensures kubectl.getCalls == old(kubectl.getCalls) + 1
    ensures old(kubectl.Observed(deploymentName)).Success? ==>
              err == None && n == old(kubectl.replicas)[deploymentName]
    ensures old(kubectl.Observed(deploymentName)).Failure? ==>
              err == Some(old(kubectl.Observed(deploymentName)).error) && n == 0
  {
    var result := kubectl.GetScale(deploymentName);
    if result.Failure? {
      n, err := 0, Some(result.error);
      return;
    }
    n, err := result.value, None;
  }

  /**
   * `SetNumberOfPods`: read the current count, publish it through
   * `currentNumOfPods`, and issue an update only when it differs from the
   * target.  Exactly one read is issued; at most one update; no other
   * deployment is touched.
   */
  method SetNumberOfPods(numPods: int32, currentNumOfPods: Int32Cell, kubectl: Cluster, deploymentName: string)
    returns (changed: bool, err: Option<Error>)
    modifies currentNumOfPods, kubectl
    ensures kubectl.getCalls == old(kubectl.getCalls) + 1
    ensures kubectl.getFault == old(kubectl.getFault) && kubectl.updateFault == old(kubectl.updateFault)
    // the read failed: nothing was written, neither to the cell nor to the cluster
    ensures old(kubectl.Observed(deploymentName)).Failure? ==>
              && !changed && err == Some(old(kubectl.Observed(deploymentName)).error)
              && currentNumOfPods.value == old(currentNumOfPods.value)
              && kubectl.updateCalls == old(kubectl.updateCalls)
              && kubectl.replicas == old(kubectl.replicas)
    // already at the target: the value read is published and no update is issued
    ensures old(kubectl.Observed(deploymentName)) == Success(numPods) ==>
              && !changed && err == None
              && currentNumOfPods.value == numPods
              && kubectl.updateCalls == old(kubectl.updateCalls)
              && kubectl.replicas == old(kubectl.replicas)
    // a different count: exactly one update, carrying the target
    ensures old(kubectl.Observed(deploymentName)).Success? && old(kubectl.Observed(deploymentName)) != Success(numPods) ==>
              && kubectl.updateCalls == old(kubectl.updateCalls) + 1
              && (old(kubectl.updateFault).Some? ==>
                    && !changed && err == Some(ApiFailure(old(kubectl.updateFault).value))
                    && currentNumOfPods.value == old(kubectl.replicas)[deploymentName]
                    && kubectl.replicas == old(kubectl.replicas))
              && (old(kubectl.updateFault).None? ==>
                    && changed && err == None
                    && currentNumOfPods.value == numPods
                    && kubectl.replicas == old(kubectl.replicas)[deploymentName := numPods])
    ensures changed <==> err == None && old(kubectl.Observed(deploymentName)) != Success(numPods)
    ensures forall d :: d != deploymentName ==>
              (d in kubectl.replicas <==> d in old(kubectl.replicas)) &&
              (d in kubectl.replicas ==> kubectl.replicas[d] == old(kubectl.replicas)[d])
  {
    var scale := kubectl.GetScale(deploymentName);
    if scale.Failure? {
      return false, Some(scale.error);
    }
    currentNumOfPods.value := scale.value;
    if currentNumOfPods.value == numPods {
      return false, None;
    }
    var updated := kubectl.UpdateScale(deploymentName, numPods);
    if updated.Failure? {
      return false, Some(updated.error);
    }
    currentNumOfPods.value := updated.value;
    return true, None;
  }

  /**
   * The guard makes repeated scaling to one target idempotent: with a
   * healthy control plane, a second `SetNumberOfPods` to the target the
   * first one reached reports no change and issues no update, so the pair
   * of calls issues at most one update in all.
   */
  method RepeatedScaleUpdatesOnce(numPods: int32, currentNumOfPods: Int32Cell, kubectl: Cluster, deploymentName: string)
    returns (first: bool, second: bool)
    requires kubectl.getFault == None && kubectl.updateFault == None
    requires deploymentName in kubectl.replicas
    modifies currentNumOfPods, kubectl
    ensures first <==> old(kubectl.replicas)[deploymentName] != numPods
    ensures !second
    ensures kubectl.updateCalls == old(kubectl.updateCalls) + (if first then 1 else 0)
    ensures kubectl.replicas == old(kubectl.replicas)[deploymentName := numPods]
    ensures currentNumOfPods.value == numPods
  {
    var err;
    first, err := SetNumberOfPods(numPods, currentNumOfPods, kubectl, deploymentName);
    second, err := SetNumberOfPods(numPods, currentNumOfPods, kubectl, deploymentName);
  }

  /**
   * The integration test moves every deployment by one pod up and then down
   * and expects `SetNumberOfPods` to report a change.  The wrapped targets
   * `numPods + 1` and `numPods - 1` always differ from `numPods`, even at the
   * ends of the `int32` range, so the change branch is the one taken.
   */
  lemma OffByOneTargetDiffers(numPods: int32)
    ensures AddInt32(numPods, 1) != numPods && AddInt32(numPods, -1) != numPods
    ensures numPods < 0x7fff_ffff ==> AddInt32(numPods, 1) as int == numPods as int + 1
    ensures numPods == 0x7fff_ffff ==> AddInt32(numPods, 1) == -0x8000_0000
    ensures numPods > -0x8000_0000 ==> AddInt32(numPods, -1) as int == numPods as int - 1
  {
  }
}
