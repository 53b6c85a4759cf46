/** What the control node knows about where blocks are: the reports of the data nodes. */
module Registry {
  import opened Bytes
  import opened Extents
  import opened Replication
  import opened Tree

  type User = string

  /** Some user at address ip has reported the block. */
  ghost predicate Knows(blockmap: map<u64, set<User>>, ipmap: map<User, u32>, num: u64, ip: u32) {
    num in blockmap && exists u :: u in blockmap[num] && u in ipmap && ipmap[u] == ip
  }

  /** The block has been reported, by users that are all still connected. */
  ghost predicate Listed(blockmap: map<u64, set<User>>, ipmap: map<User, u32>, num: u64) {
    num in blockmap && forall u :: u in blockmap[num] ==> u in ipmap
  }

  /** The piece with the addresses that keep says. */
  function Masked(e: Extent, keep: set<u32>): Extent {
    e.(ip0 := if e.ip0 in keep then e.ip0 else 0,
       ip1 := if e.ip1 in keep then e.ip1 else 0,
       ip2 := if e.ip2 in keep then e.ip2 else 0)
  }

  /** f is e without the nodes that have not reported the block. */
  ghost predicate Filtered(blockmap: map<u64, set<User>>, ipmap: map<User, u32>, e: Extent, f: Extent) {
    && f.num == e.num && f.offset == e.offset && f.length == e.length
    && (forall j :: 0 <= j < 3 ==> Slot(f, j) == if Knows(blockmap, ipmap, e.num, Slot(e, j)) then Slot(e, j) else 0)
  }

  class Registry {
    var blockmap: map<u64, set<User>>
    var ipmap: map<User, u32>

    constructor ()
      ensures blockmap == map[] && ipmap == map[]
    {
      blockmap, ipmap := map[], map[];
    }

    /** addBlockInfo: a data node reports its blocks and its address. */
    method AddBlockInfo(l: seq<u64>, user: User, ip: u32)
      modifies this
      ensures ipmap == old(ipmap)[user := ip]
      ensures forall n :: n in blockmap <==> n in old(blockmap) || n in l
      ensures forall n :: n in blockmap ==>
                blockmap[n] == (if n in old(blockmap) then old(blockmap)[n] else {}) + (if n in l then {user} else {})
    {
      var i := 0;
      while i < |l|
        invariant 0 <= i <= |l| && ipmap == old(ipmap)
        invariant forall n :: n in blockmap <==> n in old(blockmap) || n in l[..i]
        invariant forall n :: n in blockmap ==>
          blockmap[n] == (if n in old(blockmap) then old(blockmap)[n] else {}) + (if n in l[..i] then {user} else {})
      {
        var block := l[i];
        assert l[..i + 1] == l[..i] + [block];
        if block !in blockmap {
          blockmap := blockmap[block := {user}];
        } else {
          blockmap := blockmap[block := blockmap[block] + {user}];
        }
        i := i + 1;
      }
      assert l[..i] == l;
      ipmap := ipmap[user := ip];
    }

    /** The addresses of the users that have reported the block; None stands for a KeyError. */
    method AddressesOf(num: u64) returns (r: Option<set<u32>>)
      ensures r.Some? <==> Listed(blockmap, ipmap, num)
      ensures r.Some? ==> forall ip :: ip in r.value <==> Knows(blockmap, ipmap, num, ip)
    {
      if num !in blockmap {
        return None;
      }
      var users, ips := blockmap[num], {};
      while users != {}
        invariant users <= blockmap[num]
        invariant forall u :: u in blockmap[num] - users ==> u in ipmap
        invariant forall ip :: ip in ips <==> exists u :: u in blockmap[num] - users && u in ipmap && ipmap[u] == ip
        decreases |users|
      {
        var user :| user in users;
        if user !in ipmap {
          return None;
        }
        ghost var prev := users;
        ips := ips + {ipmap[user]};
        users := users - {user};
        assert blockmap[num] - users == blockmap[num] - prev + {user};
      }
      return Some(ips);
    }

    /** __flit_read: takes out of each piece the nodes that have not reported its block.  It fails
        where a block has not been reported at all, or by a user that is gone. */
    method FlitRead(exts: seq<Extent>) returns (r: Option<seq<Extent>>)
      ensures r.Some? <==> forall i :: 0 <= i < |exts| ==> Listed(blockmap, ipmap, exts[i].num)
      ensures r.Some? ==> |r.value| == |exts|
      ensures r.Some? ==> forall i :: 0 <= i < |exts| ==> Filtered(blockmap, ipmap, exts[i], r.value[i])
    {
      var ret: seq<Extent> := [];
      var i := 0;
      while i < |exts|
        invariant 0 <= i == |ret| <= |exts|
        invariant forall a :: 0 <= a < i ==> Listed(blockmap, ipmap, exts[a].num)
        invariant forall a :: 0 <= a < i ==> Filtered(blockmap, ipmap, exts[a], ret[a])
      {
        var ips := AddressesOf(exts[i].num);
        if ips.None? {
          return None;
        }
        ret := ret + [Masked(exts[i], ips.value)];
        i := i + 1;
      }
      return Some(ret);
    }
  }

  /** A reader who is given the filtered pieces reads what all nodes of the pieces carry. */
  lemma FilteredCarry(blockmap: map<u64, set<User>>, ipmap: map<User, u32>, stores: Stores,
                      e: Extent, f: Extent, x: seq<byte>)
    requires Filtered(blockmap, ipmap, e, f) && AllCarry(stores, e, x)
    ensures AllCarry(stores, f, x)
  {
    forall j | 0 <= j < 3 && Slot(f, j) != 0 ensures Carries(stores, Slot(f, j), f, x) {
      assert Carries(stores, Slot(e, j), e, x);
      forall k | 0 <= k < |x| ensures OnNode(stores, Slot(f, j), f.num, f.offset + k, x[k]) {
        assert OnNode(stores, Slot(e, j), e.num, e.offset + k, x[k]);
      }
    }
  }

  lemma {:induction false} FilteredTotal(blockmap: map<u64, set<User>>, ipmap: map<User, u32>,
                                         exts: seq<Extent>, outs: seq<Extent>)
    requires |outs| == |exts| && forall i :: 0 <= i < |exts| ==> Filtered(blockmap, ipmap, exts[i], outs[i])
    ensures Total(outs) == Total(exts)
  {
    if exts != [] {
      FilteredTotal(blockmap, ipmap, exts[..|exts| - 1], outs[..|outs| - 1]);
    }
  }

  /** Filtering loses nothing that has been written: it only leaves out copies. */
  lemma FilteredReplicated(blockmap: map<u64, set<User>>, ipmap: map<User, u32>, stores: Stores,
                           exts: seq<Extent>, outs: seq<Extent>, data: seq<byte>)
    requires |outs| == |exts| && forall i :: 0 <= i < |exts| ==> Filtered(blockmap, ipmap, exts[i], outs[i])
    requires Replicated(stores, exts, data)
    ensures Replicated(stores, outs, data)
  {
    FilteredTotal(blockmap, ipmap, exts, outs);
    forall i | 0 <= i < |outs| ensures AllCarry(stores, outs[i], Part(outs, data, i)) {
      FilteredTotal(blockmap, ipmap, exts[..i], outs[..i]);
      assert Part(outs, data, i) == Part(exts, data, i);
      FilteredCarry(blockmap, ipmap, stores, exts[i], outs[i], Part(exts, data, i));
    }
  }
}
