// The posting records of a non-blocking halo exchange round and MPI's
// matching rule: a receive posted at rank `me` for (source, tag) is served
// by the first send that `source` posted to `me` with that tag.
module Messages {
  import opened Seqs
  import opened Topology

  /** `Isend(slice, dest, tag)`: the side names which boundary slice is sent. */
  datatype Send<S> = Send(dest: Nbr, tag: nat, side: S)

  /** `Irecv(ghost, source, tag)`: the side names which ghost slice is written. */
  datatype Recv<S> = Recv(source: Nbr, tag: nat, side: S)

  /** A send addressed to `me` with tag `tag`. */
  predicate Matches<S>(s: Send<S>, me: nat, tag: nat)
  {
    s.dest == Rank(me) && s.tag == tag
  }

  /** Finds the send that serves a receive: the first one, in posting order,
      addressed to `me` with `tag` (MPI's non-overtaking order). A receive
      with no matching send never completes, so the round requires one. */
  method FindSend<S>(sends: seq<Send<S>>, me: nat, tag: nat) returns (j: nat)
    requires exists i :: 0 <= i < |sends| && Matches(sends[i], me, tag)
    ensures j < |sends| && Matches(sends[j], me, tag)
    ensures forall i :: 0 <= i < j ==> !Matches(sends[i], me, tag)
  {
    j := 0;
    while !Matches(sends[j], me, tag)
      invariant j < |sends|
      invariant exists i :: j <= i < |sends| && Matches(sends[i], me, tag)
      invariant forall i :: 0 <= i < j ==> !Matches(sends[i], me, tag)
      decreases |sends| - j
    {
      j := j + 1;
    }
  }

  /** The payload a receive at `me` for `tag` obtains from the sends one
      source posted: that of the first matching send, or None when no send
      matches. */
  function Delivered<S>(sends: seq<Send<S>>, me: nat, tag: nat): Option<S>
  {
    if sends == [] then None
    else if Matches(sends[0], me, tag) then Some(sends[0].side)
    else Delivered(sends[1..], me, tag)
  }

  /** Delivered finds a payload exactly when some send matches, and then it
      is the payload of the first matching send. */
  lemma {:induction false} DeliveredFirst<S>(sends: seq<Send<S>>, me: nat, tag: nat)
    ensures Delivered(sends, me, tag).Some? <==> exists i :: 0 <= i < |sends| && Matches(sends[i], me, tag)
    ensures forall j :: 0 <= j < |sends| && Matches(sends[j], me, tag) &&
                        (forall i :: 0 <= i < j ==> !Matches(sends[i], me, tag))
                        ==> Delivered(sends, me, tag) == Some(sends[j].side)
  {
    if sends != [] {
      DeliveredFirst(sends[1..], me, tag);
      if !Matches(sends[0], me, tag) {
        forall j | 0 <= j < |sends| && Matches(sends[j], me, tag) &&
                   (forall i :: 0 <= i < j ==> !Matches(sends[i], me, tag))
          ensures Delivered(sends, me, tag) == Some(sends[j].side)
        {
          assert j > 0 && sends[1..][j - 1] == sends[j];
          assert forall i :: 0 <= i < j - 1 ==> sends[1..][i] == sends[i + 1];
        }
        if exists i :: 0 <= i < |sends| && Matches(sends[i], me, tag) {
          var i :| 0 <= i < |sends| && Matches(sends[i], me, tag);
          assert sends[1..][i - 1] == sends[i];
        }
      }
    }
  }

  /** A blocking `comm.Recv(buf, source, tag)` at `me`: the matching send is
      looked up among those the source posted, and its payload is returned. */
  method BlockingRecv<S>(sends: seq<Send<S>>, me: nat, tag: nat) returns (payload: S)
    requires Delivered(sends, me, tag).Some?
    ensures Some(payload) == Delivered(sends, me, tag)
  {
    DeliveredFirst(sends, me, tag);
    var j := FindSend(sends, me, tag);
    payload := sends[j].side;
  }
}
