/** The message store's users: an index from the hash of a full name to a mailbox. */
module Mailboxes {
  datatype User = User(first: string, last: string)
  datatype UserMsg = UserMsg(from: User, to: User, text: string)
  datatype ReturnCode = SUCCESS | EXISTS

  type Hash = string -> nat
  type Box = seq<UserMsg>
  type Store = map<nat, Box>

  /** The key of a user: the hash of first and last name run together. */
  function Key(hash: Hash, u: User): nat {
    hash(u.first + u.last)
  }

  lemma KeyOfName(hash: Hash, u: User)
    ensures Key(hash, u) == hash(u.first + u.last)
  {
  }

  /** Users have the same key under every hash if and only if their names run together alike. */
  lemma SameKeyIff(u: User, v: User)
    ensures (forall hash: Hash :: Key(hash, u) == Key(hash, v)) <==> u.first + u.last == v.first + v.last
  {
    var name := u.first + u.last;
    var tells: Hash := s => if s == name then 0 else 1;
    assert Key(tells, u) == 0;
    assert v.first + v.last != name ==> Key(tells, v) == 1;
  }

  class UserManager {
    const hash: Hash
    var usersByHash: Store

    constructor (hash: Hash)
      ensures this.hash == hash && usersByHash == map[]
    {
      this.hash := hash;
      usersByHash := map[];
    }

    method DoesUserExist(u: User) returns (found: bool)
      ensures found <==> hash(u.first + u.last) in usersByHash
    {
      found := hash(u.first + u.last) in usersByHash;
    }

    /** A mailbox under the hash of the full name, if there is none yet. */
    method AddUser(u: User) returns (r: ReturnCode)
      modifies this
      ensures r == EXISTS <==> hash(u.first + u.last) in old(usersByHash)
      ensures usersByHash == if r == EXISTS then old(usersByHash) else old(usersByHash)[hash(u.first + u.last) := []]
      ensures (usersByHash, Added(r)) == Apply(hash, old(usersByHash), Add(u))
    {
      var known := DoesUserExist(u);
      if known {
        return EXISTS;
      }
      usersByHash := usersByHash[hash(u.first + u.last) := []];
      return SUCCESS;
    }

    /** Only called for a user that exists: the iterator is used without a check. */
    method SendToUser(m: UserMsg)
      requires hash(m.to.first + m.to.last) in usersByHash
      modifies this
      ensures var key := hash(m.to.first + m.to.last);
        usersByHash == old(usersByHash)[key := old(usersByHash)[key] + [m]]
    {
      var key := hash(m.to.first + m.to.last);
      usersByHash := usersByHash[key := usersByHash[key] + [m]];
    }

    method GetUserMessages(u: User) returns (msgs: Box)
      modifies this
      ensures var key := hash(u.first + u.last);
        if key in old(usersByHash) then
          msgs == old(usersByHash)[key] && usersByHash == old(usersByHash)[key := []]
        else msgs == [] && usersByHash == old(usersByHash)
      ensures Key(hash, u) in old(usersByHash) ==>
        (usersByHash, Got(msgs)) == Apply(hash, old(usersByHash), Receive(u))
    {
      var key := hash(u.first + u.last);
      if key !in usersByHash {
        return [];
      }
      msgs := usersByHash[key];
      usersByHash := usersByHash[key := []];
    }
  }

  // ---- Requests as the store serves them ----

  datatype Op = Add(user: User) | Send(msg: UserMsg) | Receive(user: User)
  datatype Response = Added(code: ReturnCode) | Sent | Got(msgs: Box) | NoSuchUser

  /** A request of the user interface, which refuses to send or receive for users that do not exist. */
  function Apply(hash: Hash, store: Store, op: Op): (Store, Response) {
    match op
    case Add(u) =>
      if Key(hash, u) in store then (store, Added(EXISTS)) else (store[Key(hash, u) := []], Added(SUCCESS))
    case Send(m) =>
      var key := Key(hash, m.to);
      if Key(hash, m.from) !in store || key !in store then (store, NoSuchUser)
      else (store[key := store[key] + [m]], Sent)
    case Receive(u) =>
      var key := Key(hash, u);
      if key !in store then (store, NoSuchUser) else (store[key := []], Got(store[key]))
  }

  /** The store after a run of requests, and the responses. */
  function Run(hash: Hash, store: Store, ops: seq<Op>): (Store, seq<Response>)
    decreases |ops|
  {
    if ops == [] then (store, [])
    else
      var n := |ops| - 1;
      var (s, rs) := Run(hash, store, ops[..n]);
      var (s', r) := Apply(hash, s, ops[n]);
      (s', rs + [r])
  }

  lemma {:induction false} RunAppend(hash: Hash, store: Store, a: seq<Op>, b: seq<Op>)
    ensures Run(hash, store, a + b).0 == Run(hash, Run(hash, store, a).0, b).0
    decreases |b|
  {
    if b == [] {
      assert a + b == a;
    } else {
      var n := |b| - 1;
      assert (a + b)[..|a| + n] == a + b[..n];
      RunAppend(hash, store, a, b[..n]);
    }
  }

  // ---- Conservation ----

  /** The keys that have been added in a run. */
  function KnownKeys(hash: Hash, ops: seq<Op>): set<nat> {
    set i | 0 <= i < |ops| && ops[i].Add? :: Key(hash, ops[i].user)
  }

  /** What a request adds to the mailbox of a key: a message between users that are known. */
  function SentNow(hash: Hash, op: Op, known: set<nat>, key: nat): Box {
    if op.Send? && Key(hash, op.msg.to) == key && key in known && Key(hash, op.msg.from) in known then [op.msg] else []
  }

  /** What a request delivers from the mailbox of a key. */
  function GotNow(hash: Hash, op: Op, r: Response, key: nat): Box {
    if op.Receive? && Key(hash, op.user) == key && r.Got? then r.msgs else []
  }

  /** The messages sent to a key in a run, in order: those between users added before. */
  function SentTo(hash: Hash, ops: seq<Op>, key: nat): Box
    decreases |ops|
  {
    if ops == [] then []
    else
      var n := |ops| - 1;
      SentTo(hash, ops[..n], key) + SentNow(hash, ops[n], KnownKeys(hash, ops[..n]), key)
  }

  /** The messages that the responses of a run delivered for a key, in order. */
  function Delivered(hash: Hash, ops: seq<Op>, rs: seq<Response>, key: nat): Box
    requires |ops| == |rs|
    decreases |ops|
  {
    if ops == [] then []
    else
      var n := |ops| - 1;
      Delivered(hash, ops[..n], rs[..n], key) + GotNow(hash, ops[n], rs[n], key)
  }

  lemma {:induction false} RunKeys(hash: Hash, ops: seq<Op>)
    ensures Run(hash, map[], ops).0.Keys == KnownKeys(hash, ops)
    ensures |Run(hash, map[], ops).1| == |ops|
  {
    if ops == [] {
    } else {
      var n := |ops| - 1;
      RunKeys(hash, ops[..n]);
      KnownKeysStep(hash, ops);
    }
  }

  lemma KnownKeysStep(hash: Hash, ops: seq<Op>)
    requires ops != []
    ensures var n := |ops| - 1;
      KnownKeys(hash, ops) == KnownKeys(hash, ops[..n]) + if ops[n].Add? then {Key(hash, ops[n].user)} else {}
  {
  }

  /** What waits in the mailbox of a key. */
  function Pending(store: Store, key: nat): Box {
    if key in store then store[key] else []
  }

  lemma ApplyConserves(hash: Hash, store: Store, op: Op, key: nat)
    ensures var (store', r) := Apply(hash, store, op);
      GotNow(hash, op, r, key) + Pending(store', key) == Pending(store, key) + SentNow(hash, op, store.Keys, key)
  {
  }

  lemma RunStep(hash: Hash, ops: seq<Op>)
    requires ops != []
    ensures var n := |ops| - 1;
      var (store, rs) := Run(hash, map[], ops[..n]);
      Run(hash, map[], ops) == (Apply(hash, store, ops[n]).0, rs + [Apply(hash, store, ops[n]).1])
  {
  }

  /** Over any run, what was delivered for a key followed by what is pending in its mailbox is exactly
    what was sent to it, in order: nothing is lost, reordered, or delivered twice. */
  lemma {:induction false} Conservation(hash: Hash, ops: seq<Op>, key: nat)
    ensures |Run(hash, map[], ops).1| == |ops|
    ensures var (store, rs) := Run(hash, map[], ops);
      Delivered(hash, ops, rs, key) + Pending(store, key) == SentTo(hash, ops, key)
  {
    hide Apply, Pending, GotNow, SentNow, KnownKeys;
    RunKeys(hash, ops);
    if ops == [] {
      NonePending(hash, key);
    } else {
      var n := |ops| - 1;
      Conservation(hash, ops[..n], key);
      RunKeys(hash, ops[..n]);
      RunStep(hash, ops);
      var (store, rs) := Run(hash, map[], ops[..n]);
      var (store', r) := Apply(hash, store, ops[n]);
      assert (rs + [r])[..n] == rs;
      ApplyConserves(hash, store, ops[n], key);
      var delivered := Delivered(hash, ops[..n], rs, key);
      assert delivered + GotNow(hash, ops[n], r, key) + Pending(store', key)
          == delivered + (GotNow(hash, ops[n], r, key) + Pending(store', key));
      assert delivered + (Pending(store, key) + SentNow(hash, ops[n], store.Keys, key))
          == delivered + Pending(store, key) + SentNow(hash, ops[n], store.Keys, key);
    }
  }

  lemma NonePending(hash: Hash, key: nat)
    ensures Run(hash, map[], []) == (map[], []) && Pending(map[], key) == []
  {
  }

  /** Someone whose full name has this hash was added. */
  predicate AddedName(hash: Hash, ops: seq<Op>, key: nat) {
    exists i :: 0 <= i < |ops| && ops[i].Add? && hash(ops[i].user.first + ops[i].user.last) == key
  }

  lemma KnownNames(hash: Hash, ops: seq<Op>, key: nat)
    ensures key in KnownKeys(hash, ops) <==> AddedName(hash, ops, key)
  {
  }

  /** How a run goes on, in terms of the requests before it alone: an add succeeds unless the hash of the
    full name was added, a send goes out if both names were added, and to the receiver's mailbox, and a
    receive gets what was sent to the mailbox and not delivered yet. */
  lemma NextAnswer(hash: Hash, ops: seq<Op>, op: Op)
    ensures |Run(hash, map[], ops).1| == |ops|
    ensures var store := Run(hash, map[], ops).0;
      forall key: nat :: key in store <==> AddedName(hash, ops, key)
    ensures op.Add? ==>
      var store, key := Run(hash, map[], ops).0, hash(op.user.first + op.user.last);
      Apply(hash, store, op) ==
        if AddedName(hash, ops, key) then (store, Added(EXISTS)) else (store[key := []], Added(SUCCESS))
    ensures op.Send? ==>
      var store, key := Run(hash, map[], ops).0, hash(op.msg.to.first + op.msg.to.last);
      if AddedName(hash, ops, key) && AddedName(hash, ops, hash(op.msg.from.first + op.msg.from.last)) then
        key in store && Apply(hash, store, op) == (store[key := store[key] + [op.msg]], Sent)
      else Apply(hash, store, op) == (store, NoSuchUser)
    ensures op.Receive? ==>
      var (store, rs) := Run(hash, map[], ops);
      var (store', r) := Apply(hash, store, op);
      var key := hash(op.user.first + op.user.last);
      if AddedName(hash, ops, key) then
        && store' == store[key := []]
        && r.Got? && Delivered(hash, ops, rs, key) + r.msgs == SentTo(hash, ops, key)
      else store' == store && r == NoSuchUser
  {
    hide Run, KnownKeys, Delivered, SentTo;
    RunKeys(hash, ops);
    forall key: nat ensures key in KnownKeys(hash, ops) <==> AddedName(hash, ops, key) {
      KnownNames(hash, ops, key);
    }
    hide AddedName;
    if op.Receive? {
      Conservation(hash, ops, Key(hash, op.user));
    }
  }

  // ---- Against mailboxes per user ----

  type RefStore = map<User, Box>

  function RefApply(store: RefStore, op: Op): (RefStore, Response) {
    match op
    case Add(u) => if u in store then (store, Added(EXISTS)) else (store[u := []], Added(SUCCESS))
    case Send(m) =>
      if m.from !in store || m.to !in store then (store, NoSuchUser)
      else (store[m.to := store[m.to] + [m]], Sent)
    case Receive(u) => if u !in store then (store, NoSuchUser) else (store[u := []], Got(store[u]))
  }

  function RefRun(store: RefStore, ops: seq<Op>): (RefStore, seq<Response>)
    decreases |ops|
  {
    if ops == [] then (store, [])
    else
      var n := |ops| - 1;
      var (s, rs) := RefRun(store, ops[..n]);
      var (s', r) := RefApply(s, ops[n]);
      (s', rs + [r])
  }

  predicate Mentions(op: Op, users: set<User>) {
    match op
    case Add(u) => u in users
    case Send(m) => m.from in users && m.to in users
    case Receive(u) => u in users
  }

  ghost predicate Over(ops: seq<Op>, users: set<User>) {
    forall op <- ops :: Mentions(op, users)
  }

  ghost predicate Injective(hash: Hash, users: set<User>) {
    forall u <- users, v <- users :: Key(hash, u) == Key(hash, v) ==> u == v
  }

  ghost predicate Represents(hash: Hash, store: Store, boxes: RefStore, users: set<User>) {
    && boxes.Keys <= users
    && forall u <- users :: (u in boxes <==> Key(hash, u) in store) && (u in boxes ==> boxes[u] == store[Key(hash, u)])
  }

  lemma ApplyRepresents(hash: Hash, store: Store, boxes: RefStore, users: set<User>, op: Op)
    requires Injective(hash, users) && Represents(hash, store, boxes, users) && Mentions(op, users)
    ensures Represents(hash, Apply(hash, store, op).0, RefApply(boxes, op).0, users)
    ensures Apply(hash, store, op).1 == RefApply(boxes, op).1
  {
  }

  lemma {:induction false} RunRepresents(hash: Hash, users: set<User>, ops: seq<Op>)
    requires Injective(hash, users) && Over(ops, users)
    ensures Represents(hash, Run(hash, map[], ops).0, RefRun(map[], ops).0, users)
    ensures Run(hash, map[], ops).1 == RefRun(map[], ops).1
  {
    if ops == [] {
    } else {
      var n := |ops| - 1;
      assert forall op <- ops[..n] :: op in ops;
      RunRepresents(hash, users, ops[..n]);
      ApplyRepresents(hash, Run(hash, map[], ops[..n]).0, RefRun(map[], ops[..n]).0, users, ops[n]);
    }
  }

  /** The index answers every run of requests over a set of users as one mailbox per user would, if
    and only if no two of those users share a key. */
  lemma RefinesIffInjective(hash: Hash, users: set<User>)
    ensures (forall ops | Over(ops, users) :: Run(hash, map[], ops).1 == RefRun(map[], ops).1)
      <==> Injective(hash, users)
  {
    if Injective(hash, users) {
      forall ops | Over(ops, users) ensures Run(hash, map[], ops).1 == RefRun(map[], ops).1 {
        RunRepresents(hash, users, ops);
      }
    } else {
      var u, v :| u in users && v in users && Key(hash, u) == Key(hash, v) && u != v;
      SharedKeyShows(hash, u, v);
      assert Over([Add(u), Add(v)], users);
    }
  }

  /** Two users with one key: adding both is answered differently. */
  lemma SharedKeyShows(hash: Hash, u: User, v: User)
    requires u != v && Key(hash, u) == Key(hash, v)
    ensures Run(hash, map[], [Add(u), Add(v)]).1 != RefRun(map[], [Add(u), Add(v)]).1
  {
    var ops := [Add(u), Add(v)];
    assert ops[..1] == [Add(u)];
    assert ops[..1][..0] == [];
    assert Run(hash, map[], ops[..1]).0 == map[Key(hash, u) := []];
    assert RefRun(map[], ops[..1]).0 == map[u := []];
    assert Run(hash, map[], ops).1[1] == Added(EXISTS);
    assert RefRun(map[], ops).1[1] == Added(SUCCESS);
  }

  /** Whatever the hash, names that run together alike share a mailbox. */
  lemma SplitNamesCollide(hash: Hash)
    ensures !Injective(hash, {User("ab", "c"), User("a", "bc")})
  {
    assert "ab" + "c" == "a" + "bc";
    assert Key(hash, User("ab", "c")) == Key(hash, User("a", "bc"));
    assert User("ab", "c").first[1..] != User("a", "bc").first[1..];
  }
}
