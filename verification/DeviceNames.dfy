/** The inference devices, named as in configuration, requests and markers
    (crates/diar-server/src/engines.rs); the execution modes of a smoke test are the same four. */
module DeviceNames {

  datatype Device = Cpu | Cuda | CoreMl | CoreMlFast

  function Name(d: Device): string {
    match d
    case Cpu => "cpu"
    case Cuda => "cuda"
    case CoreMl => "coreml"
    case CoreMlFast => "coreml_fast"
  }
}
