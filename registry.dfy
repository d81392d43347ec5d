/** The descriptor-indexed connection table, `std::vector<Conn *> fd2conn`,
    and `connPut`, which files a connection under its descriptor. */
module Registries {
  import opened ServerHeader

  class Registry {
    var slots: seq<Conn?>

    /** The table is empty when the event loop starts. */
    constructor ()
      ensures slots == []
    {
      slots := [];
    }

    /** The connections filed in the table. */
    ghost function Conns(): set<Conn?>
      reads this
    {
      set i | 0 <= i < |slots| :: slots[i]
    }

    /** Every connection sits in the slot of its own descriptor, which is
        how the event loop finds it again (`fd2conn[pollArgs[i].fd]`). */
    ghost predicate Indexed()
      reads this, Conns()
    {
      forall i :: 0 <= i < |slots| && slots[i] != null ==> slots[i].fd == i
    }
  }

  /** `connPut`: grow the table to at least fd + 1 slots, the new ones empty,
      and file conn at index fd; every other slot keeps its connection. */
  method ConnPut(reg: Registry, conn: Conn)
    requires conn.fd >= 0
    modifies reg
    ensures |reg.slots| == if conn.fd < |old(reg.slots)| then |old(reg.slots)| else conn.fd + 1
    ensures reg.slots[conn.fd] == conn
    ensures forall i :: 0 <= i < |reg.slots| && i != conn.fd ==>
      reg.slots[i] == if i < |old(reg.slots)| then old(reg.slots)[i] else null
    ensures old(reg.Indexed()) ==> reg.Indexed()
  {
    if |reg.slots| <= conn.fd {
      reg.slots := reg.slots + seq(conn.fd + 1 - |reg.slots|, _ => null);
    }
    reg.slots := reg.slots[conn.fd := conn];
  }
}
