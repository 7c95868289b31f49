/** The requesting socket.io connection, as far as the handlers touch it: the rooms it has
    joined, and (as a log that only proofs read) the events emitted while handling it. */
module Transport {
  import opened Model

  class Socket {
    /** `socket.id`. */
    const id: string
    /** The conversation rooms `socket.join` has added the connection to. */
    var rooms: set<Id>
    /** Every event emitted so far, with who it was addressed to. */
    ghost var sent: seq<Emit>

    constructor(id: string)
      ensures this.id == id && rooms == {} && sent == []
    {
      this.id := id;
      rooms := {};
      sent := [];
    }
  }
}
