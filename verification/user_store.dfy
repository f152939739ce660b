/**
 * The `user` table as the repository and the entity manager see it: rows
 * keyed by a generated id, lookups, insertion, saving a managed entity, and
 * the paginated listing in id order.
 */
module UserStore {
  import opened Wrappers
  import opened UserEntity

  /** Rows by id, and the next value of the auto-increment key. */
  datatype Store = Store(users: map<int, User>, nextId: int)

  const EMPTY: Store := Store(map[], 1)

  /** Generated ids start at 1, stay below `nextId`, and each row knows its own id. */
  predicate Valid(s: Store) {
    && s.nextId >= 1
    && forall id :: id in s.users ==> 1 <= id < s.nextId && s.users[id].id == Some(id)
  }

  /** `findOneBy(['id' => $id])` */
  function FindById(s: Store, id: int): (r: Option<User>)
    ensures r.Some? <==> id in s.users
    ensures r.Some? ==> r.value == s.users[id]
  {
    if id in s.users then Some(s.users[id]) else None
  }

  /** `findOneBy(['email' => $email])` returns a row. */
  predicate EmailTaken(s: Store, email: string) {
    exists id :: id in s.users && s.users[id].email == Some(email)
  }

  /** `persist` and `flush` of a new entity: it gets the next generated id. */
  function Insert(s: Store, u: User): (r: (Store, int))
    requires Valid(s)
    ensures Valid(r.0)
    ensures r.1 !in s.users && r.1 >= 1
    ensures r.0.users.Keys == s.users.Keys + {r.1}
    ensures |r.0.users| == |s.users| + 1
    ensures r.0.users[r.1] == u.(id := Some(r.1))
    ensures forall id :: id in s.users ==> r.0.users[id] == s.users[id]
  {
    var id := s.nextId;
    (Store(s.users[id := u.(id := Some(id))], id + 1), id)
  }

  /** `flush` of a managed entity that was changed in memory. */
  function Save(s: Store, u: User): (r: Store)
    requires Valid(s)
    requires u.id.Some? && u.id.value in s.users
    ensures Valid(r)
    ensures r.users.Keys == s.users.Keys && r.nextId == s.nextId
    ensures r.users[u.id.value] == u
    ensures forall id :: id in s.users && id != u.id.value ==> r.users[id] == s.users[id]
  {
    Store(s.users[u.id.value := u], s.nextId)
  }

  /** The ids below `n` that hold a row, ascending. */
  function IdsBelow(m: map<int, User>, n: int): (ids: seq<int>)
    decreases n
    ensures forall i :: 0 <= i < |ids| ==> ids[i] in m && ids[i] < n
    ensures forall i, j :: 0 <= i < j < |ids| ==> ids[i] < ids[j]
    ensures forall k :: k in m && 1 <= k < n ==> k in ids
  {
    if n <= 1 then []
    else IdsBelow(m, n - 1) + (if n - 1 in m then [n - 1] else [])
  }

  /** Every row id, in the order the listing returns them. */
  function IdsInOrder(s: Store): seq<int> {
    IdsBelow(s.users, s.nextId)
  }

  /** `count($this->userRepository->findAll())` */
  function CountAll(s: Store): nat {
    |s.users|
  }

  lemma {:induction false} AscendingCard(ids: seq<int>)
    requires forall i, j :: 0 <= i < j < |ids| ==> ids[i] < ids[j]
    ensures |set i | i in ids| == |ids|
  {
    if ids != [] {
      var last := ids[|ids| - 1];
      var init := ids[..|ids| - 1];
      AscendingCard(init);
      assert (set i | i in ids) == (set i | i in init) + {last};
      assert last !in (set i | i in init);
    }
  }

  /** The listing in id order holds every row exactly once. */
  lemma OrderCoversStore(s: Store)
    requires Valid(s)
    ensures |IdsInOrder(s)| == CountAll(s)
    ensures forall id :: id in s.users <==> id in IdsInOrder(s)
  {
    var ids := IdsInOrder(s);
    AscendingCard(ids);
    assert (set i | i in ids) == s.users.Keys;
  }

  /** `findPaginated($limit, $offset)`: at most `limit` rows from position `offset`, in id order. */
  function FindPaginated(s: Store, limit: nat, offset: nat): (page: seq<User>)
    ensures |page| <= limit
    ensures var ids := IdsInOrder(s);
      |page| == (if offset >= |ids| then 0 else if offset + limit > |ids| then |ids| - offset else limit)
    ensures forall j :: 0 <= j < |page| ==> page[j] == s.users[IdsInOrder(s)[offset + j]]
  {
    var ids := IdsInOrder(s);
    var from := if offset > |ids| then |ids| else offset;
    var to := if offset + limit > |ids| then |ids| else offset + limit;
    seq(to - from, j requires 0 <= j < to - from => s.users[ids[from + j]])
  }
}
