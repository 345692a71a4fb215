/** Peers, and lists of them. */
module PeerLists {
  /** The identity of a peer object. */
  type Peer = nat

  ghost predicate NoDuplicates(peers: seq<Peer>) {
    forall i, j :: 0 <= i < j < |peers| ==> peers[i] != peers[j]
  }
}
