/** The parts of the Kubernetes core/v1 API that the controller reads. */
module KubeApi {

  datatype Container = Container(image: string)

  /** A pod's spec: its init containers and its regular containers. */
  datatype Pod = Pod(initContainers: seq<Container>, containers: seq<Container>)

  /** `append(pod.Spec.InitContainers, pod.Spec.Containers...)`: init containers first. */
  function PodContainers(pod: Pod): (cs: seq<Container>)
    ensures |cs| == |pod.initContainers| + |pod.containers|
    ensures forall i :: 0 <= i < |pod.initContainers| ==> cs[i] == pod.initContainers[i]
    ensures forall i :: 0 <= i < |pod.containers| ==> cs[|pod.initContainers| + i] == pod.containers[i]
  {
    pod.initContainers + pod.containers
  }

  /** The image references of `containers`, in order. */
  function Images(containers: seq<Container>): (refs: seq<string>)
    ensures |refs| == |containers|
    ensures forall i :: 0 <= i < |containers| ==> refs[i] == containers[i].image
  {
    seq(|containers|, i requires 0 <= i < |containers| => containers[i].image)
  }

  /** Every image reference the pods name, pod by pod, init containers before regular ones. */
  function ContainerImages(pods: seq<Pod>): seq<string> {
    if pods == [] then []
    else ContainerImages(pods[..|pods| - 1]) + Images(PodContainers(pods[|pods| - 1]))
  }

  /** The references seen so far, followed by one more container's. */
  lemma ImagesStep(before: seq<string>, containers: seq<Container>, j: nat)
    requires j < |containers|
    ensures before + Images(containers[..j + 1]) == (before + Images(containers[..j])) + [containers[j].image]
  {
    assert Images(containers[..j + 1]) == Images(containers[..j]) + [containers[j].image];
  }

  lemma ContainerImagesStep(pods: seq<Pod>, i: nat)
    requires i < |pods|
    ensures ContainerImages(pods[..i + 1]) == ContainerImages(pods[..i]) + Images(PodContainers(pods[i]))
  {
    assert pods[..i + 1][..i] == pods[..i];
  }
}
