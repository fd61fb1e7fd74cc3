/** The storage endpoint that the hashing schemes place files on. */
module StorageNodes {

  /** A node is a plain value: its name and its host address. Only the host
      is ever hashed; the HTTP transfers a node performs are not modelled. */
  datatype StorageNode = StorageNode(name: string, host: string)
}
