/** The descriptors that the control node hands out to its users. */
module Descriptors {
  import opened Bytes
  import opened Tree

  datatype FileDes = FileDes(fb: u32, mode: int, kind: byte)

  // ----- one pool -----

  /** A pool as a value: the descriptors in use, those given back, and how many there have been. */
  datatype Pool = Pool(live: map<nat, FileDes>, recycled: seq<nat>, count: nat)

  const EMPTY := Pool(map[], [], 0)

  function Gen(p: Pool, file: FileDes): (Pool, nat) {
    if p.recycled != [] then
      var fd := p.recycled[|p.recycled| - 1];
      (Pool(p.live[fd := file], p.recycled[..|p.recycled| - 1], p.count), fd)
    else (Pool(p.live[p.count := file], [], p.count + 1), p.count)
  }

  /** Closing a descriptor; one that is not in use is refused. */
  function Des(p: Pool, fd: nat): Option<Pool> {
    if fd !in p.live then None
    else
      var live := p.live - {fd};
      Some(if |live| == 0 then Pool(live, [], 0) else Pool(live, p.recycled + [fd], p.count))
  }

  /** Live and recycled descriptors together are 0 to count - 1, each once. */
  ghost predicate Good(p: Pool) {
    && (forall i, j :: 0 <= i < j < |p.recycled| ==> p.recycled[i] != p.recycled[j])
    && (forall fd :: fd in p.live ==> fd !in p.recycled)
    && (forall fd :: 0 <= fd < p.count <==> fd in p.live || fd in p.recycled)
    && |p.live| + |p.recycled| == p.count
  }

  lemma EmptyGood()
    ensures Good(EMPTY)
  {
  }

  /** gen never returns a live descriptor, and opens exactly the one it returns. */
  lemma GenGood(p: Pool, file: FileDes)
    requires Good(p)
    ensures var (p', fd) := Gen(p, file);
            Good(p') && fd !in p.live && p'.live == p.live[fd := file] && |p'.live| == |p.live| + 1
  {
    var (p', fd) := Gen(p, file);
    if p.recycled != [] {
      assert fd in p.recycled;
      assert forall x :: x in p.recycled <==> x in p'.recycled || x == fd;
    }
    LiveMore(p.live, fd, file);
  }

  lemma LiveMore(live: map<nat, FileDes>, fd: nat, file: FileDes)
    requires fd !in live
    ensures |live[fd := file]| == |live| + 1
  {
    assert live[fd := file].Keys == live.Keys + {fd};
  }

  lemma LiveLess(live: map<nat, FileDes>, fd: nat)
    requires fd in live
    ensures |live - {fd}| == |live| - 1
  {
    assert (live - {fd}).Keys == live.Keys - {fd};
  }

  lemma DesGood(p: Pool, fd: nat)
    requires Good(p) && fd in p.live
    ensures Good(Des(p, fd).value) && Des(p, fd).value.live == p.live - {fd}
  {
    LiveLess(p.live, fd);
    var p' := Des(p, fd).value;
    if |p'.live| > 0 {
      assert forall x :: x in p'.recycled <==> x in p.recycled || x == fd;
    } else {
      assert p'.live.Keys == {};
    }
  }

  /** An open after a close gets the descriptor just closed, or 0 when none was left; and without
      anything recycled an open gets the next new one. */
  lemma LastClosedFirst(p: Pool, fd: nat, file: FileDes)
    requires Good(p)
    ensures fd in p.live ==>
              Gen(Des(p, fd).value, file).1 == if |p.live| > 1 then fd else 0
    ensures p.recycled == [] ==> Gen(p, file).1 == |p.live|
  {
    if fd in p.live {
      LiveLess(p.live, fd);
    }
  }

  /** Descriptors closed one after the other come back in the opposite order. */
  lemma LastInFirstOut(p: Pool, a: nat, b: nat, f: FileDes, g: FileDes)
    requires Good(p) && a in p.live && b in p.live && a != b && |p.live| > 2
    ensures Des(p, a).Some? && Des(Des(p, a).value, b).Some?
    ensures var (p1, first) := Gen(Des(Des(p, a).value, b).value, f);
            first == b && Gen(p1, g).1 == a
  {
    LiveLess(p.live, a);
    LiveLess(p.live - {a}, b);
  }

  datatype Request = OpenFile(file: FileDes) | CloseFd(fd: nat)

  function Serve(p: Pool, r: Request): Pool {
    match r
    case OpenFile(file) => Gen(p, file).0
    case CloseFd(fd) => if Des(p, fd).Some? then Des(p, fd).value else p
  }

  function ServeAll(p: Pool, rs: seq<Request>): Pool
    decreases |rs|
  {
    if rs == [] then p else ServeAll(Serve(p, rs[0]), rs[1..])
  }

  /** The most descriptors that are open at one time. */
  function Peak(p: Pool, rs: seq<Request>): nat
    decreases |rs|
  {
    if rs == [] then |p.live|
    else
      var rest := Peak(Serve(p, rs[0]), rs[1..]);
      if |p.live| > rest then |p.live| else rest
  }

  lemma ServeGood(p: Pool, r: Request)
    requires Good(p)
    ensures Good(Serve(p, r))
    ensures Serve(p, r).count <= (if p.count > |Serve(p, r).live| then p.count else |Serve(p, r).live|)
  {
    match r
    case OpenFile(file) => GenGood(p, file);
    case CloseFd(fd) => if fd in p.live { DesGood(p, fd); }
  }

  /** After any run of opens and closes the descriptors are exactly 0 to count - 1, live or recycled,
      and there are never more of them than were open at one time. */
  lemma {:induction false} RunGood(p: Pool, rs: seq<Request>)
    requires Good(p)
    ensures Good(ServeAll(p, rs))
    ensures ServeAll(p, rs).count <= (if p.count > Peak(p, rs) then p.count else Peak(p, rs))
    ensures Peak(p, rs) >= |p.live|
    decreases |rs|
  {
    if rs != [] {
      ServeGood(p, rs[0]);
      RunGood(Serve(p, rs[0]), rs[1..]);
    }
  }

  class FdPool {
    var usingmap: map<nat, FileDes>
    var usedlist: seq<nat>
    var count: nat

    ghost function State(): Pool
      reads this
    {
      Pool(usingmap, usedlist, count)
    }

    constructor ()
      ensures State() == EMPTY
    {
      usingmap, usedlist, count := map[], [], 0;
    }

    method GetFile(fd: nat) returns (file: Option<FileDes>)
      ensures file == if fd in usingmap then Some(usingmap[fd]) else None
    {
      return if fd in usingmap then Some(usingmap[fd]) else None;
    }

    method GenFd(file: FileDes) returns (fd: nat)
      requires Good(State())
      modifies this
      ensures (State(), fd) == Gen(old(State()), file)
      ensures Good(State()) && fd !in old(usingmap) && usingmap == old(usingmap)[fd := file]
    {
      GenGood(State(), file);
      if |usedlist| > 0 {
        fd := usedlist[|usedlist| - 1];
        usedlist := usedlist[..|usedlist| - 1];
      } else {
        fd := count;
        count := count + 1;
      }
      usingmap := usingmap[fd := file];
    }

    /** False stands for the error that the descriptor is not in use. */
    method DesFd(fd: nat) returns (ok: bool)
      requires Good(State())
      modifies this
      ensures Good(State()) && (ok <==> fd in old(usingmap))
      ensures ok ==> Some(State()) == Des(old(State()), fd) && usingmap == old(usingmap) - {fd}
      ensures !ok ==> State() == old(State())
    {
      if fd !in usingmap {
        return false;
      }
      DesGood(State(), fd);
      usingmap := usingmap - {fd};
      if |usingmap| == 0 {
        usedlist := [];
        count := 0;
      } else {
        usedlist := usedlist + [fd];
      }
      return true;
    }

    method IsEmpty() returns (r: bool)
      ensures r <==> usingmap.Keys == {}
    {
      assert |usingmap| == |usingmap.Keys|;
      return |usingmap| == 0;
    }
  }

  // ----- the pools of all users -----

  /** Every pool is good, and none is empty. */
  ghost predicate AllGood(pools: map<u32, Pool>) {
    forall a :: a in pools ==> Good(pools[a]) && pools[a].live != map[]
  }

  /** What each user has open. */
  ghost function OpenOf(pools: map<u32, Pool>): map<u32, map<nat, FileDes>> {
    map a | a in pools :: pools[a].live
  }

  ghost function PoolOf(pools: map<u32, Pool>, uid: u32): Pool {
    if uid in pools then pools[uid] else EMPTY
  }

  lemma PoolOfGood(pools: map<u32, Pool>, uid: u32)
    requires AllGood(pools)
    ensures Good(PoolOf(pools, uid))
    ensures PoolOf(pools, uid).live == if uid in OpenOf(pools) then OpenOf(pools)[uid] else map[]
    ensures uid in OpenOf(pools) <==> uid in pools
  {
    hide Good;
    EmptyGood();
  }

  lemma GoodSet(pools: map<u32, Pool>, uid: u32, p: Pool)
    requires AllGood(pools) && Good(p) && p.live != map[]
    ensures AllGood(pools[uid := p])
  {
    hide Good;
  }

  lemma OpenSet(pools: map<u32, Pool>, uid: u32, p: Pool)
    ensures OpenOf(pools[uid := p]) == OpenOf(pools)[uid := p.live]
  {
  }

  lemma PoolDropped(pools: map<u32, Pool>, uid: u32)
    requires AllGood(pools)
    ensures AllGood(pools - {uid}) && OpenOf(pools - {uid}) == OpenOf(pools) - {uid}
  {
    hide Good;
  }

  lemma AddedLive(live: map<nat, FileDes>, fd: nat, file: FileDes)
    ensures live[fd := file] != map[]
  {
    assert fd in live[fd := file];
  }

  /** One user has a descriptor more; nothing changes for the others. */
  lemma GenAmong(pools: map<u32, Pool>, uid: u32, file: FileDes)
    requires AllGood(pools)
    ensures var (p, fd) := Gen(PoolOf(pools, uid), file);
            var mine := if uid in OpenOf(pools) then OpenOf(pools)[uid] else map[];
            && AllGood(pools[uid := p]) && fd !in mine
            && OpenOf(pools[uid := p]) == OpenOf(pools)[uid := mine[fd := file]]
  {
    hide *;
    PoolOfGood(pools, uid);
    GenGood(PoolOf(pools, uid), file);
    var (p, fd) := Gen(PoolOf(pools, uid), file);
    AddedLive(PoolOf(pools, uid).live, fd, file);
    GoodSet(pools, uid, p);
    OpenSet(pools, uid, p);
  }

  /** One user has a descriptor less, and no pool when it was the last. */
  lemma DesAmong(pools: map<u32, Pool>, uid: u32, fd: nat)
    requires AllGood(pools) && uid in pools && fd in pools[uid].live && uid in OpenOf(pools)
    ensures Des(pools[uid], fd).Some?
    ensures var p := Des(pools[uid], fd).value; var mine := OpenOf(pools)[uid] - {fd};
            && p.live == mine
            && (mine == map[] ==> AllGood(pools - {uid}) && OpenOf(pools - {uid}) == OpenOf(pools) - {uid})
            && (mine != map[] ==> AllGood(pools[uid := p]) && OpenOf(pools[uid := p]) == OpenOf(pools)[uid := mine])
  {
    DesSome(pools[uid], fd);
    hide *;
    PoolAt(pools, uid);
    DesGood(pools[uid], fd);
    var p := Des(pools[uid], fd).value;
    if p.live == map[] {
      PoolDropped(pools, uid);
    } else {
      GoodSet(pools, uid, p);
      OpenSet(pools, uid, p);
    }
  }

  lemma DesSome(p: Pool, fd: nat)
    requires fd in p.live
    ensures Des(p, fd).Some?
  {
  }

  lemma PoolAt(pools: map<u32, Pool>, uid: u32)
    requires AllGood(pools) && uid in pools
    ensures Good(pools[uid]) && uid in OpenOf(pools) && OpenOf(pools)[uid] == pools[uid].live
  {
    hide Good;
  }

  class UserPools {
    var fds: map<u32, FdPool>

    /** Every user with a pool has one of his own. */
    ghost predicate Separate()
      reads this
    {
      forall a, b :: a in fds && b in fds && fds[a] == fds[b] ==> a == b
    }

    ghost function States(): map<u32, Pool>
      reads this, fds.Values
    {
      map a | a in fds :: fds[a].State()
    }

    ghost predicate Valid()
      reads this, fds.Values
    {
      Separate() && AllGood(States())
    }

    /** What each user has open. */
    ghost function Open(): map<u32, map<nat, FileDes>>
      reads this, fds.Values
    {
      OpenOf(States())
    }

    constructor ()
      ensures Valid() && Open() == map[]
    {
      fds := map[];
    }

    lemma StatesAre()
      ensures States().Keys == fds.Keys && forall a :: a in fds ==> States()[a] == fds[a].State()
      ensures Open() == OpenOf(States()) && (Valid() <==> Separate() && AllGood(States()))
    {
    }

    /** An empty pool for a user who has none. */
    method MakePool(uid: u32)
      requires Separate() && uid !in fds
      modifies `fds
      ensures Separate() && States() == old(States())[uid := EMPTY] && fresh(fds.Values - old(fds).Values)
    {
      var pool := new FdPool();
      fds := fds[uid := pool];
    }

    method GenIn(file: FileDes, uid: u32) returns (fd: nat)
      requires Separate() && uid in fds && Good(fds[uid].State())
      modifies fds.Values
      ensures Separate() && uid in old(States())
      ensures States() == old(States())[uid := Gen(old(States())[uid], file).0]
      ensures fd == Gen(old(States())[uid], file).1
    {
      hide Good, Gen;
      var pool := fds[uid];
      fd := pool.GenFd(file);
    }

    method DesIn(fd: nat, uid: u32) returns (empty: bool)
      requires Separate() && uid in fds && Good(fds[uid].State()) && fd in fds[uid].usingmap
      modifies fds.Values
      ensures Separate() && uid in old(States()) && Des(old(States())[uid], fd).Some?
      ensures States() == old(States())[uid := Des(old(States())[uid], fd).value]
      ensures empty <==> Des(old(States())[uid], fd).value.live == map[]
    {
      hide Good, Des;
      var pool := fds[uid];
      var closed := pool.DesFd(fd);
      empty := pool.IsEmpty();
      assert empty <==> pool.usingmap == map[];
    }

    method DropPool(uid: u32)
      requires Separate()
      modifies `fds
      ensures Separate() && States() == old(States()) - {uid}
    {
      fds := fds - {uid};
    }

    /** __gen_fd: a descriptor from the user's pool, which is made when he has none. */
    method GenFd(file: FileDes, uid: u32) returns (fd: nat)
      requires Valid()
      modifies this, fds.Values
      ensures Valid()
      ensures var mine := if uid in old(Open()) then old(Open())[uid] else map[];
              fd !in mine && Open() == old(Open())[uid := mine[fd := file]]
    {
      hide *;
      ghost var before := States();
      StatesAre();
      GenAmong(before, uid, file);
      PoolOfGood(before, uid);
      PoolOfIs(before, uid);
      if uid !in fds {
        MakePool(uid);
        StatesAre();
      }
      fd := GenIn(file, uid);
      StatesAre();
      UpdateTwice(before, uid, EMPTY, States()[uid]);
    }

    /** close or closedir, by the kind of file, and __des_fd: gives the descriptor back, and the
        pool away when it was the last. */
    method Close(fd: nat, kind: byte, uid: u32) returns (ok: bool)
      requires Valid()
      modifies this, fds.Values
      ensures Valid()
      ensures ok <==> uid in old(Open()) && fd in old(Open())[uid] && old(Open())[uid][fd].kind == kind
      ensures !ok ==> Open() == old(Open())
      ensures ok ==> var mine := old(Open())[uid] - {fd};
                     Open() == if mine == map[] then old(Open()) - {uid} else old(Open())[uid := mine]
    {
      hide *;
      ghost var before := States();
      StatesAre();
      OpenAt(before, uid);
      if uid !in fds {
        return false;
      }
      StateOf(fds[uid]);
      var file := fds[uid].GetFile(fd);
      if file.None? || file.value.kind != kind {
        return false;
      }
      PoolAt(before, uid);
      DesAmong(before, uid, fd);
      var empty := DesIn(fd, uid);
      if empty {
        DropPool(uid);
        UpdateDropped(before, uid, Des(before[uid], fd).value);
      }
      StatesAre();
      return true;
    }
  }

  lemma StateOf(pool: FdPool)
    ensures pool.State().live == pool.usingmap
  {
  }

  lemma PoolOfIs(pools: map<u32, Pool>, uid: u32)
    ensures PoolOf(pools, uid) == if uid in pools then pools[uid] else EMPTY
  {
  }

  lemma UpdateTwice(pools: map<u32, Pool>, uid: u32, p: Pool, q: Pool)
    ensures pools[uid := p][uid := q] == pools[uid := q]
  {
  }

  lemma UpdateDropped(pools: map<u32, Pool>, uid: u32, p: Pool)
    ensures pools[uid := p] - {uid} == pools - {uid}
  {
  }

  lemma OpenAt(pools: map<u32, Pool>, uid: u32)
    ensures uid in OpenOf(pools) <==> uid in pools
    ensures uid in pools ==> OpenOf(pools)[uid] == pools[uid].live
  {
  }
}
