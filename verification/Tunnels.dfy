/** What both backends speak about; tunnels and configurations are compared by identity. */
module Tunnels {
  datatype Tunnel = Tunnel(id: nat)
  datatype Config = Config(id: nat)
  datatype State = DOWN | TOGGLE | UP

  /** How a call ends: with a state, or with an exception. */
  datatype Result = Returned(state: State) | Threw
}
