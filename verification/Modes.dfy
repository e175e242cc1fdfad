/** The four kinds of instances. */
module Modes {
  datatype Mode = Lxc | Pve | Vm | PveVm
}
