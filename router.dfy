/**
  * Who receives what: the list `connected_clients` with one socket removed (the
  * erase/remove idiom), and the sends made by `broadcast_message` and
  * `send_group_message`, as functions of the registry contents they read.
  */
module Router {
  import opened Protocol

  predicate NoDuplicates<T(==)>(xs: seq<T>) {
    forall i, j :: 0 <= i < j < |xs| ==> xs[i] != xs[j]
  }

  /** `order` lists every element of `s` exactly once: one iteration of an unordered set. */
  ghost predicate Enumerates(order: seq<string>, s: set<string>) {
    NoDuplicates(order) && forall x :: x in order <==> x in s
  }

  /** `xs` with every occurrence of `x` removed, the others kept in order. */
  function Without(xs: seq<Socket>, x: Socket): (r: seq<Socket>)
    ensures x !in r
    ensures forall y :: y != x ==> (y in r <==> y in xs)
    ensures |r| <= |xs|
    ensures x !in xs ==> r == xs
    ensures NoDuplicates(xs) ==> NoDuplicates(r)
  {
    if xs == [] then []
    else
      var init := Without(xs[..|xs| - 1], x);
      var last := xs[|xs| - 1];
      assert xs == xs[..|xs| - 1] + [last];
      assert NoDuplicates(xs) ==> last !in xs[..|xs| - 1];
      if last == x then init else init + [last]
  }

  /** `v.erase(std::remove(v.begin(), v.end(), x), v.end())`. */
  method EraseRemove(xs: seq<Socket>, x: Socket) returns (r: seq<Socket>)
    ensures r == Without(xs, x)
  {
    r := [];
    var i := 0;
    while i < |xs|
      invariant 0 <= i <= |xs|
      invariant r == Without(xs[..i], x)
    {
      assert xs[..i + 1][..i] == xs[..i];
      if xs[i] != x {
        r := r + [xs[i]];
      }
      i := i + 1;
    }
    assert xs[..i] == xs;
  }

  /**
    * The sends of `broadcast_message(text, exclude)`: one copy of `text` to each socket of
    * `clients` other than `exclude`, in list order; exactly the list `Without` keeps.
    */
  function BroadcastTo(clients: seq<Socket>, text: string, exclude: Socket): (r: seq<Send>)
    ensures |r| == |Without(clients, exclude)|
  {
    if clients == [] then []
    else
      var init := BroadcastTo(clients[..|clients| - 1], text, exclude);
      var last := clients[|clients| - 1];
      if last == exclude then init else init + [Send(last, text)]
  }

  /** The i-th send of a broadcast goes to the i-th socket that `Without` keeps, with the same text. */
  lemma {:induction false} BroadcastOrder(clients: seq<Socket>, text: string, exclude: Socket)
    ensures forall i :: 0 <= i < |BroadcastTo(clients, text, exclude)| ==>
      BroadcastTo(clients, text, exclude)[i] == Send(Without(clients, exclude)[i], text)
  {
    if clients != [] {
      BroadcastOrder(clients[..|clients| - 1], text, exclude);
    }
  }

  /** A broadcast reaches a socket exactly when it is connected and is not the sender's. */
  lemma BroadcastReaches(clients: seq<Socket>, text: string, exclude: Socket, k: Socket, t: string)
    ensures Send(k, t) in BroadcastTo(clients, text, exclude) <==> k in clients && k != exclude && t == text
  {
    var r := BroadcastTo(clients, text, exclude);
    var w := Without(clients, exclude);
    BroadcastOrder(clients, text, exclude);
    if k in clients && k != exclude && t == text {
      var i :| 0 <= i < |w| && w[i] == k;
      assert r[i] == Send(k, t);
    }
  }

  /** The sender's own socket, appended last, adds nothing to a broadcast it sends. */
  lemma BroadcastSkipsAppendedSender(clients: seq<Socket>, text: string, sender: Socket)
    ensures BroadcastTo(clients + [sender], text, sender) == BroadcastTo(clients, text, sender)
  {
    assert (clients + [sender])[..|clients|] == clients;
  }

  /** Removing a socket that was appended to a list without it gives the list back. */
  lemma WithoutAppended(xs: seq<Socket>, x: Socket)
    requires x !in xs
    ensures Without(xs + [x], x) == xs
  {
    assert (xs + [x])[..|xs|] == xs;
  }

  /** The sends of `send_group_message` for members visited in `order`. */
  function GroupDeliveries(order: seq<string>, sender: string, sockets: map<string, Socket>, text: string)
    : (r: seq<Send>)
    ensures forall i :: 0 <= i < |r| ==> r[i].text == text
    ensures |r| <= |order|
  {
    if order == [] then []
    else
      var init := GroupDeliveries(order[..|order| - 1], sender, sockets, text);
      var m := order[|order| - 1];
      if m != sender && m in sockets then init + [Send(sockets[m], text)] else init
  }

  /** Nobody but a visited member other than the sender, with a live session, is written to. */
  lemma {:induction false} GroupDeliveriesOnlyMembers(order: seq<string>, sender: string, sockets: map<string, Socket>,
                                                      text: string, p: Send)
    requires p in GroupDeliveries(order, sender, sockets, text)
    ensures p.text == text
    ensures exists m :: m in order && m != sender && m in sockets && p.to == sockets[m]
  {
    var init := order[..|order| - 1];
    var m := order[|order| - 1];
    assert order == init + [m];
    if p in GroupDeliveries(init, sender, sockets, text) {
      GroupDeliveriesOnlyMembers(init, sender, sockets, text, p);
      var n :| n in init && n != sender && n in sockets && p.to == sockets[n];
      assert n in order;
    } else {
      assert m in order && p == Send(sockets[m], text);
    }
  }

  /** Every member visited that is not the sender and has a live session gets the message. */
  lemma {:induction false} GroupDeliveriesReach(order: seq<string>, sender: string, sockets: map<string, Socket>,
                                                text: string, m: string)
    requires m in order && m != sender && m in sockets
    ensures Send(sockets[m], text) in GroupDeliveries(order, sender, sockets, text)
  {
    var init := order[..|order| - 1];
    if order[|order| - 1] != m {
      assert order == init + [order[|order| - 1]];
      assert m in init;
      GroupDeliveriesReach(init, sender, sockets, text, m);
    }
  }

  /** A visited member with a live session gets exactly one copy when each member is visited once. */
  lemma {:induction false} GroupDeliveriesOnce(order: seq<string>, sender: string, sockets: map<string, Socket>,
                                               text: string)
    requires NoDuplicates(order)
    ensures |GroupDeliveries(order, sender, sockets, text)| == |set m | m in order && m != sender && m in sockets|
  {
    if order != [] {
      var init := order[..|order| - 1];
      var m := order[|order| - 1];
      var before := set n | n in init && n != sender && n in sockets;
      var after := set n | n in order && n != sender && n in sockets;
      assert order == init + [m];
      assert m !in init;
      GroupDeliveriesOnce(init, sender, sockets, text);
      if m != sender && m in sockets {
        assert after == before + {m};
      } else {
        assert after == before;
      }
    }
  }
}
