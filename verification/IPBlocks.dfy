/** IP blocks: what the hash:net tables of ipBlockToTable and peerRule in pkg/policy/policy.go accept. */
module IPBlocks {
  import opened Sequences
  import opened PacketFilter
  import opened NetworkPolicies

  ghost predicate AllParse(nets: seq<Option<Prefix>>) {
    forall i :: 0 <= i < |nets| ==> nets[i].Some?
  }

  /** The peer contributes a table of networks. */
  ghost predicate BlockPeer(peer: Peer) {
    && peer.podSelector.None? && peer.namespaceSelector.None? && peer.ipBlock.Some?
    && peer.ipBlock.value.cidr.Some? && AllParse(peer.ipBlock.value.except)
  }

  /** The block's exceptions contain the address. */
  ghost predicate Excepted(block: IPBlock, a: Addr) {
    exists i :: 0 <= i < |block.except| && block.except[i].Some? && block.except[i].value <= a
  }

  /** The address is in the network and in none of its exceptions. */
  ghost predicate BlockCovers(block: IPBlock, a: Addr) {
    block.cidr.Some? && block.cidr.value <= a && !Excepted(block, a)
  }

  ghost predicate IsException(block: IPBlock, e: Prefix) {
    exists i :: 0 <= i < |block.except| && block.except[i] == Some(e)
  }

  /** Every exception lies strictly inside the block. */
  ghost predicate StrictExceptions(block: IPBlock) {
    block.cidr.Some? && forall i :: 0 <= i < |block.except| && block.except[i].Some? ==> block.cidr.value < block.except[i].value
  }

  // ---- Entries ----

  function Elements(entries: seq<Entry>): set<Entry> { set x | x in entries }

  lemma {:induction false} ExceptEntriesMembers(start: seq<Entry>, except: seq<Option<Prefix>>, x: Entry)
    ensures ExceptEntries(start, except).Some? <==> AllParse(except)
    ensures AllParse(except) ==>
      (x in ExceptEntries(start, except).value <==> x in start || exists i :: 0 <= i < |except| && x == Net(except[i].value, true))
    decreases |except|
  {
    if except != [] && except[0].Some? {
      ExceptEntriesMembers(start + [Net(except[0].value, true)], except[1..], x);
      assert AllParse(except) <==> AllParse(except[1..]) by {
        assert forall i :: 0 <= i < |except[1..]| ==> except[1..][i] == except[i + 1];
        assert forall i :: 0 < i < |except| ==> except[i] == except[1..][i - 1];
      }
      if AllParse(except) {
        if i :| 0 <= i < |except| && x == Net(except[i].value, true) { if i > 0 { assert x == Net(except[1..][i - 1].value, true); } }
        if i :| 0 <= i < |except[1..]| && x == Net(except[1..][i].value, true) { assert x == Net(except[i + 1].value, true); }
      }
    }
  }

  /** The entries of a block: itself, and its exceptions as nomatch. */
  ghost predicate EntryOf(block: IPBlock, x: Entry) {
    x.Net? && if x.nomatch then IsException(block, x.prefix) else block.cidr == Some(x.prefix)
  }

  lemma BlockTableMembers(peer: Peer, cluster: Cluster, x: Entry)
    ensures (PeerTableOf(cluster, peer).Some? && PeerTableOf(cluster, peer).value.Nets?) <==> BlockPeer(peer)
    ensures BlockPeer(peer) ==> (x in PeerTableOf(cluster, peer).value.entries <==> EntryOf(peer.ipBlock.value, x))
  {
    if peer.podSelector.None? && peer.namespaceSelector.None? && peer.ipBlock.Some? && peer.ipBlock.value.cidr.Some? {
      var block := peer.ipBlock.value;
      ExceptEntriesMembers([Net(block.cidr.value, false)], block.except, x);
      if BlockPeer(peer) {
        if i :| 0 <= i < |block.except| && x == Net(block.except[i].value, true) { assert block.except[i] == Some(x.prefix); }
        if x.Net? && x.nomatch && IsException(block, x.prefix) {
          var i :| 0 <= i < |block.except| && block.except[i] == Some(x.prefix);
          assert x == Net(block.except[i].value, true);
        }
      }
    }
  }

  lemma {:induction false} NetsOfMembers(cluster: Cluster, peers: seq<Peer>, x: Entry)
    ensures NetsOf(cluster, peers).Some? <==> exists j :: 0 <= j < |peers| && BlockPeer(peers[j])
    ensures NetsOf(cluster, peers).Some? ==>
      (x in NetsOf(cluster, peers).value <==> exists j :: 0 <= j < |peers| && BlockPeer(peers[j]) && EntryOf(peers[j].ipBlock.value, x))
  {
    if peers != [] {
      var front, last := peers[..|peers| - 1], peers[|peers| - 1];
      NetsOfMembers(cluster, front, x);
      BlockTableMembers(last, cluster, x);
      if j :| 0 <= j < |front| && BlockPeer(front[j]) { assert BlockPeer(peers[j]); }
      if j :| 0 <= j < |peers| && BlockPeer(peers[j]) { if j < |front| { assert BlockPeer(front[j]); } }
      if j :| 0 <= j < |front| && BlockPeer(front[j]) && EntryOf(front[j].ipBlock.value, x) {
        assert BlockPeer(peers[j]) && EntryOf(peers[j].ipBlock.value, x);
      }
      if j :| 0 <= j < |peers| && BlockPeer(peers[j]) && EntryOf(peers[j].ipBlock.value, x) {
        if j < |front| { assert BlockPeer(front[j]) && EntryOf(front[j].ipBlock.value, x); }
      }
    }
  }

  // ---- Longest prefixes ----

  lemma PrefixesNest(p: Prefix, q: Prefix, a: Addr)
    requires p <= a && q <= a && |p| <= |q|
    ensures p <= q
  {
    assert p == a[..|p|] && q == a[..|q|];
  }

  /** In a finite set some element containing the address is longest. */
  lemma {:induction false} LongestExists(entries: set<Entry>, a: Addr) returns (e: Entry)
    requires exists x :: x in entries && x.Net? && x.prefix <= a
    ensures MostSpecific(entries, e, a)
    decreases |entries|
  {
    var x :| x in entries && x.Net? && x.prefix <= a;
    var rest := entries - {x};
    if exists y :: y in rest && y.Net? && y.prefix <= a {
      e := LongestExists(rest, a);
      if |e.prefix| < |x.prefix| { e := x; }
    } else {
      e := x;
    }
  }

  /** The table is made of the entries of the block peers. */
  ghost predicate TableOfPeers(entries: set<Entry>, peers: seq<Peer>) {
    forall x :: x in entries <==> exists j :: 0 <= j < |peers| && BlockPeer(peers[j]) && EntryOf(peers[j].ipBlock.value, x)
  }

  /** Some exception of `one` lies inside the block `two`, but in none of its exceptions. */
  ghost predicate Shadows(one: IPBlock, two: IPBlock) {
    exists e :: IsException(one, e) && two.cidr.Some? && two.cidr.value <= e && !Excepted(two, e)
  }

  /** Exceptions lie strictly inside their own block, and none shadows another block of the same rule. */
  ghost predicate Compatible(peers: seq<Peer>) {
    && (forall j :: 0 <= j < |peers| && BlockPeer(peers[j]) ==> StrictExceptions(peers[j].ipBlock.value))
    && forall i, j :: 0 <= i < |peers| && 0 <= j < |peers| && BlockPeer(peers[i]) && BlockPeer(peers[j]) && i != j ==>
         !Shadows(peers[i].ipBlock.value, peers[j].ipBlock.value)
  }

  ghost predicate UnionCovers(peers: seq<Peer>, a: Addr) {
    exists j :: 0 <= j < |peers| && BlockPeer(peers[j]) && BlockCovers(peers[j].ipBlock.value, a)
  }

  lemma ExceptedDeeper(block: IPBlock, e: Prefix, a: Addr)
    requires Excepted(block, e) && e <= a
    ensures Excepted(block, a)
  {
    var i :| 0 <= i < |block.except| && block.except[i].Some? && block.except[i].value <= e;
    assert block.except[i].value <= a;
  }

  lemma TableWithinUnion(entries: set<Entry>, peers: seq<Peer>, a: Addr)
    requires TableOfPeers(entries, peers) && NetsCover(entries, a)
    requires forall j :: 0 <= j < |peers| && BlockPeer(peers[j]) ==> StrictExceptions(peers[j].ipBlock.value)
    ensures UnionCovers(peers, a)
  {
    var e :| MostSpecific(entries, e, a);
    var j :| 0 <= j < |peers| && BlockPeer(peers[j]) && EntryOf(peers[j].ipBlock.value, e);
    var block := peers[j].ipBlock.value;
    forall i | 0 <= i < |block.except| && block.except[i].Some? ensures !(block.except[i].value <= a) {
      ExceptionInTable(entries, peers, j, i);
    }
    assert BlockCovers(block, a);
  }

  lemma ExceptionInTable(entries: set<Entry>, peers: seq<Peer>, j: nat, i: nat)
    requires TableOfPeers(entries, peers) && j < |peers| && BlockPeer(peers[j]) && i < |peers[j].ipBlock.value.except|
    ensures Net(peers[j].ipBlock.value.except[i].value, true) in entries
  {
    var x := Net(peers[j].ipBlock.value.except[i].value, true);
    assert IsException(peers[j].ipBlock.value, x.prefix) && EntryOf(peers[j].ipBlock.value, x);
  }

  ghost predicate AllStrict(peers: seq<Peer>) {
    forall j :: 0 <= j < |peers| && BlockPeer(peers[j]) ==> StrictExceptions(peers[j].ipBlock.value)
  }

  /**
   * The exception e of block i takes the address a away from block j: it lies in block j, a is in none of j's own
   * exceptions, and no entry of any block is more specific at a.
   */
  ghost predicate ShadowedBy(peers: seq<Peer>, i: nat, j: nat, e: Prefix, a: Addr) {
    && i < |peers| && j < |peers| && BlockPeer(peers[i]) && BlockPeer(peers[j])
    && IsException(peers[i].ipBlock.value, e) && peers[j].ipBlock.value.cidr.value <= e <= a
    && !Excepted(peers[j].ipBlock.value, a)
    && forall k, x :: 0 <= k < |peers| && BlockPeer(peers[k]) && EntryOf(peers[k].ipBlock.value, x) && x.prefix <= a ==> |x.prefix| <= |e|
  }

  ghost predicate Shadowed(peers: seq<Peer>, a: Addr) {
    exists i, j, e :: ShadowedBy(peers, i, j, e, a)
  }

  lemma UnionWithinTable(entries: set<Entry>, peers: seq<Peer>, a: Addr)
    requires TableOfPeers(entries, peers) && !Shadowed(peers, a) && UnionCovers(peers, a)
    ensures NetsCover(entries, a)
  {
    var j :| 0 <= j < |peers| && BlockPeer(peers[j]) && BlockCovers(peers[j].ipBlock.value, a);
    var block := peers[j].ipBlock.value;
    var own := Net(block.cidr.value, false);
    assert EntryOf(block, own) && own in entries;
    var d := LongestExists(entries, a);
    forall e | MostSpecific(entries, e, a) ensures !e.nomatch {
      var i :| 0 <= i < |peers| && BlockPeer(peers[i]) && EntryOf(peers[i].ipBlock.value, e);
      PrefixesNest(block.cidr.value, e.prefix, a);
      assert e.nomatch ==> ShadowedBy(peers, i, j, e.prefix, a);
    }
  }

  lemma TableIsOfPeers(cluster: Cluster, peers: seq<Peer>)
    requires NetsOf(cluster, peers).Some?
    ensures TableOfPeers(Elements(NetsOf(cluster, peers).value), peers)
  {
    var entries := Elements(NetsOf(cluster, peers).value);
    forall x ensures x in entries <==> exists j :: 0 <= j < |peers| && BlockPeer(peers[j]) && EntryOf(peers[j].ipBlock.value, x) {
      NetsOfMembers(cluster, peers, x);
    }
  }

  /** At an address, the merged table means the union of the networks without their exceptions exactly when nothing shadows it. */
  lemma MergedExact(cluster: Cluster, peers: seq<Peer>, a: Addr)
    requires AllStrict(peers) && NetsOf(cluster, peers).Some?
    ensures (NetsCover(Elements(NetsOf(cluster, peers).value), a) <==> UnionCovers(peers, a)) <==> !Shadowed(peers, a)
  {
    var entries := Elements(NetsOf(cluster, peers).value);
    TableIsOfPeers(cluster, peers);
    if NetsCover(entries, a) { TableWithinUnion(entries, peers, a); }
    if !Shadowed(peers, a) {
      if UnionCovers(peers, a) { UnionWithinTable(entries, peers, a); }
    } else {
      var i, j, e :| ShadowedBy(peers, i, j, e, a);
      ShadowedBlock(cluster, peers, i, j, e, a);
    }
  }

  /** An exception above the address that lies in block j is, directly or through compatibility, an exception of j. */
  lemma ExceptedByOther(peers: seq<Peer>, i: nat, j: nat, e: Prefix, a: Addr)
    requires Compatible(peers) && i < |peers| && j < |peers| && BlockPeer(peers[i]) && BlockPeer(peers[j])
    requires IsException(peers[i].ipBlock.value, e) && peers[j].ipBlock.value.cidr.value <= e <= a
    ensures Excepted(peers[j].ipBlock.value, a)
  {
    if i == j {
      var m :| 0 <= m < |peers[i].ipBlock.value.except| && peers[i].ipBlock.value.except[m] == Some(e);
    } else {
      assert !Shadows(peers[i].ipBlock.value, peers[j].ipBlock.value);
      ExceptedDeeper(peers[j].ipBlock.value, e, a);
    }
  }

  lemma CompatibleNotShadowed(peers: seq<Peer>, a: Addr)
    requires Compatible(peers)
    ensures !Shadowed(peers, a)
  {
    forall i: nat, j: nat, e ensures !ShadowedBy(peers, i, j, e, a) {
      if i < |peers| && j < |peers| && BlockPeer(peers[i]) && BlockPeer(peers[j])
        && IsException(peers[i].ipBlock.value, e) && peers[j].ipBlock.value.cidr.value <= e <= a
      {
        ExceptedByOther(peers, i, j, e, a);
      }
    }
  }

  /** An exception inside another block but in none of its exceptions shadows the address that is the exception itself. */
  lemma ShadowsSomewhere(peers: seq<Peer>, i: nat, j: nat)
    requires i < |peers| && j < |peers| && BlockPeer(peers[i]) && BlockPeer(peers[j])
    requires Shadows(peers[i].ipBlock.value, peers[j].ipBlock.value)
    ensures exists a :: Shadowed(peers, a)
  {
    var e :| IsException(peers[i].ipBlock.value, e) && peers[j].ipBlock.value.cidr.value <= e && !Excepted(peers[j].ipBlock.value, e);
    assert ShadowedBy(peers, i, j, e, e);
    assert Shadowed(peers, e);
  }

  /** The merged table accepts exactly the union at every address if and only if the blocks are compatible. */
  lemma MergedBlocks(cluster: Cluster, peers: seq<Peer>)
    requires AllStrict(peers) && NetsOf(cluster, peers).Some?
    ensures
      (forall a :: NetsCover(Elements(NetsOf(cluster, peers).value), a) <==> UnionCovers(peers, a)) <==> Compatible(peers)
  {
    forall a ensures (NetsCover(Elements(NetsOf(cluster, peers).value), a) <==> UnionCovers(peers, a)) <==> !Shadowed(peers, a) {
      MergedExact(cluster, peers, a);
    }
    if Compatible(peers) {
      forall a ensures !Shadowed(peers, a) { CompatibleNotShadowed(peers, a); }
    } else {
      var i, j :| 0 <= i < |peers| && 0 <= j < |peers| && BlockPeer(peers[i]) && BlockPeer(peers[j]) && i != j
        && Shadows(peers[i].ipBlock.value, peers[j].ipBlock.value);
      ShadowsSomewhere(peers, i, j);
    }
  }

  /** One block with exceptions strictly inside it accepts exactly the network minus the exceptions. */
  lemma SingleBlock(block: IPBlock, a: Addr)
    requires StrictExceptions(block) && AllParse(block.except)
    ensures BlockTable(block).Some?
    ensures NetsCover(Elements(BlockTable(block).value), a) <==> BlockCovers(block, a)
  {
    var peers := [Peer(None, None, Some(block))];
    var cluster := Cluster([], [], []);
    assert BlockPeer(peers[0]) && Compatible(peers);
    BlockTableMembers(peers[0], cluster, Host([]));
    assert peers[..0] == [] && NetsOf(cluster, peers[..0]) == None;
    assert NetsOf(cluster, peers) == BlockTable(block);
    MergedExact(cluster, peers, a);
    CompatibleNotShadowed(peers, a);
    assert UnionCovers(peers, a) <==> BlockCovers(block, a) by {
      if BlockCovers(block, a) { assert BlockCovers(peers[0].ipBlock.value, a); }
    }
  }

  /**
   * A shadowed address is lost: the union of the blocks has it and the merged table does not.
   */
  lemma ShadowedBlock(cluster: Cluster, peers: seq<Peer>, i: nat, j: nat, e: Prefix, a: Addr)
    requires ShadowedBy(peers, i, j, e, a)
    ensures NetsOf(cluster, peers).Some?
    ensures UnionCovers(peers, a) && !NetsCover(Elements(NetsOf(cluster, peers).value), a)
  {
    NetsOfMembers(cluster, peers, Host([]));
    var entries := Elements(NetsOf(cluster, peers).value);
    TableIsOfPeers(cluster, peers);
    assert EntryOf(peers[i].ipBlock.value, Net(e, true));
    assert MostSpecific(entries, Net(e, true), a);
    assert BlockCovers(peers[j].ipBlock.value, a);
  }

  /** Such blocks exist: 0.0.0.0/1 except 64.0.0.0/2, next to 0.0.0.0/1, loses 64.0.0.0/2. */
  lemma ShadowedBlockExists(cluster: Cluster, a: Addr)
    requires [false, true] <= a
    ensures
      var first := Peer(None, None, Some(IPBlock(Some([false]), [Some([false, true])])));
      var second := Peer(None, None, Some(IPBlock(Some([false]), [])));
      && NetsOf(cluster, [first, second]).Some?
      && UnionCovers([first, second], a) && !NetsCover(Elements(NetsOf(cluster, [first, second]).value), a)
  {
    var first := Peer(None, None, Some(IPBlock(Some([false]), [Some([false, true])])));
    var second := Peer(None, None, Some(IPBlock(Some([false]), [])));
    var peers := [first, second];
    assert first.ipBlock.value.except[0] == Some([false, true]);
    assert BlockPeer(peers[0]) && BlockPeer(peers[1]);
    ShadowedBlock(cluster, peers, 0, 1, [false, true], a);
  }
}
