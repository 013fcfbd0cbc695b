/** How to create and run a container, as the configuration and the shell describe it. */
module ContainerSpec {

  datatype PortMapping = PortMapping(host: nat, container: nat)

  datatype AccessMode = ReadOnly | ReadWrite

  datatype VolumeMount = VolumeMount(source: string, target: string, access: AccessMode)

  datatype RestartPolicy = Never | OnFailure | Always

  datatype NetworkMode = Bridge | Host | NoNetwork

  datatype ResourceLimits = ResourceLimits(memory: nat, pids: nat, cpuShares: nat)

  datatype Spec = Spec(
    image: string, command: seq<string>, env: seq<(string, string)>, ports: seq<PortMapping>,
    volumes: seq<VolumeMount>, network: NetworkMode, resources: ResourceLimits, restart: RestartPolicy)

  const DEFAULT_LIMITS: ResourceLimits := ResourceLimits(256 * 1024 * 1024, 100, 1024)

  /** A container of which only image and command are given. */
  function NewSpec(image: string, command: seq<string>): Spec {
    Spec(image, command, [], [], [], Bridge, DEFAULT_LIMITS, Never)
  }
}
