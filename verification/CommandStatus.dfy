// include/sway/commands.h: how a command went.
module CommandStatus {
  datatype Status = Success | Failure | Invalid | Defer
}
