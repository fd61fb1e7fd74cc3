/** Outcomes of the hashing operations: a value, or the failure the
    implementation raises instead of returning one. */
module Results {

  /** The exceptions the ring and the modulo hash raise. */
  datatype Error =
    | HashSpaceFull      // add_node on a ring whose every slot is taken
    | CollisionDetected  // add_node for a slot that is already occupied
    | HashSpaceEmpty     // remove_node on an empty ring
    | NodeNotPresent     // remove_node for a slot that nobody occupies
    | ZeroDivisionError  // a modulo by a node count of zero

  datatype Result<T> = Ok(value: T) | Err(error: Error)
}
