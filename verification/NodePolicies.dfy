/** The node policies of src/trace_config.h: which processes of a node act. */
module NodePolicies {
  datatype Policy = PolicyOff | PolicyOn | AnyonePerNode | LeaderPerNode | RotatePerNode
}
