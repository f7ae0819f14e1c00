// Deployment configurations (pkg/config/deployment.go).
module Deployment {
  // A state read from JSON may be any text; the zero value is Other("").
  datatype NodeState = Starting | Running | Stopping | Stopped | Other(text: string)

  datatype NodeConfig = NodeConfig(state: NodeState, images: seq<string>)

  type DeploymentConfig = map<string, NodeConfig>
}
