/** Endpoint structures: their fields, and what the registry knows of them. */
module RpmsgEndpoint {
  /** An entry of the endpoint list; id is the endpoint structure itself. */
  datatype Ept = Ept(id: Endpoint, name: seq<char>, addr: nat, dest: nat)

  class Endpoint {
    var name: seq<char>
    var addr: nat
    var dest: nat
    var rdev: object?

    /** An endpoint structure before it is used. */
    constructor ()
      ensures rdev == null
    {
      name, addr, dest, rdev := [], 0, 0, null;
    }

    ghost function View(): Ept
      reads this
    {
      Ept(this, name, addr, dest)
    }
  }
}
