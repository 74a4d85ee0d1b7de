/** The other end of a connection, behind the read callback. */
module Peers {

  /** `incoming` is every byte the peer will ever send; each read hands over the next one
      or more of them, as many as it likes up to the size asked for; after the last byte
      reads return `ending`: 0 for end of file, negative for an error. */
  class Peer {
    const incoming: string
    const ending: int
    var pos: nat
    /** The stream position at which each read was issued. */
    ghost var issued: seq<nat>

    ghost predicate Valid()
      reads this
    {
      pos <= |incoming| && ending <= 0
    }

    /** What has not been received yet. */
    ghost function Rest(): string
      requires Valid()
      reads this
    {
      incoming[pos..]
    }

    constructor (incoming: string, ending: int)
      requires ending <= 0
      ensures Valid() && pos == 0 && issued == [] && this.incoming == incoming && this.ending == ending
    {
      this.incoming := incoming;
      this.ending := ending;
      pos := 0;
      issued := [];
    }

    method Receive(bytes: nat) returns (rc: int, data: string)
      requires Valid() && bytes > 0
      modifies this
      ensures Valid() && issued == old(issued) + [old(pos)]
      ensures data + Rest() == old(Rest()) && pos == old(pos) + |data| && |data| <= bytes
      ensures rc > 0 <==> old(Rest()) != ""
      ensures if rc > 0 then rc == |data| else rc == ending && data == "" && Rest() == ""
    {
      issued := issued + [pos];
      if pos == |incoming| {
        return ending, "";
      }
      rc :| 1 <= rc <= bytes && pos + rc <= |incoming|;
      data := incoming[pos..pos + rc];
      pos := pos + rc;
    }
  }
}
