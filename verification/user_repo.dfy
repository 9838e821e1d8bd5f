/** The read-only user repository of 3_ecosystem/3_5_collections/src/main.rs.
    The `im::HashMap` is a map from key to user; the order in which its
    iterator visits the keys is not visible, so it is a parameter `order`
    that lists each key exactly once. */
module UserRepo {
  import opened Base

  datatype User = User(id: string, name: string)

  datatype ImmutCollection = ImmutCollection(entries: map<string, User>)

  /** `order` is one possible iteration order of the collection's keys. */
  predicate IsOrder(c: ImmutCollection, order: seq<string>)
  {
    (forall k | k in order :: k in c.entries)
    && (forall k | k in c.entries :: k in order)
    && (forall i, j | 0 <= i < j < |order| :: order[i] != order[j])
  }

  /** `str::contains`: `t` occurs in `s` at some position; the empty string
      occurs everywhere. */
  predicate Contains(s: string, t: string)
    decreases |s|
  {
    |t| <= |s| && (s[..|t|] == t || Contains(s[1..], t))
  }

  /** `iter().find(|(k, _)| *k == id)` over the keys in `order`. */
  function Find(c: ImmutCollection, order: seq<string>, id: string): (r: Option<User>)
    requires forall k | k in order :: k in c.entries
    ensures r.Some? <==> id in order
    ensures r.Some? ==> r == Some(c.entries[id])
    decreases |order|
  {
    if |order| == 0 then None
    else if order[0] == id then Some(c.entries[id])
    else Find(c, order[1..], id)
  }

  /** `by_id`: the user stored under `id`, whatever the iteration order. */
  function ById(c: ImmutCollection, order: seq<string>, id: string): (r: Option<User>)
    requires IsOrder(c, order)
    ensures r == (if id in c.entries then Some(c.entries[id]) else None)
  {
    Find(c, order, id)
  }

  /** `by_ids`: `filter_map` of `by_id` over the requested ids. */
  function ByIds(c: ImmutCollection, order: seq<string>, ids: seq<string>): (r: seq<User>)
    requires IsOrder(c, order)
    ensures |r| <= |ids|
    ensures forall u | u in r :: u in c.entries.Values
    decreases |ids|
  {
    if |ids| == 0 then []
    else
      var rest := ByIds(c, order, ids[1..]);
      match ById(c, order, ids[0])
      case Some(u) => [u] + rest
      case None => rest
  }

  /** Asking for two lists of ids one after the other gives the two answers
      one after the other. */
  lemma {:induction false} ByIdsAppend(c: ImmutCollection, order: seq<string>, a: seq<string>, b: seq<string>)
    requires IsOrder(c, order)
    ensures ByIds(c, order, a + b) == ByIds(c, order, a) + ByIds(c, order, b)
    decreases |a|
  {
    if |a| == 0 {
      assert a + b == b;
    } else {
      assert (a + b)[0] == a[0];
      assert (a + b)[1..] == a[1..] + b;
      ByIdsAppend(c, order, a[1..], b);
    }
  }

  /** When every requested id is present, the answer is the users stored
      under them, in the order asked; an absent id is skipped. */
  lemma {:induction false} ByIdsLooksUpEach(c: ImmutCollection, order: seq<string>, ids: seq<string>)
    requires IsOrder(c, order)
    ensures (forall k | 0 <= k < |ids| :: ids[k] in c.entries) ==>
      |ByIds(c, order, ids)| == |ids|
      && forall k | 0 <= k < |ids| :: ByIds(c, order, ids)[k] == c.entries[ids[k]]
    ensures (forall k | 0 <= k < |ids| :: ids[k] !in c.entries) ==> ByIds(c, order, ids) == []
    decreases |ids|
  {
    if |ids| > 0 {
      ByIdsLooksUpEach(c, order, ids[1..]);
    }
  }

  /** `search`: the users, in iteration order, whose name contains `alike`. */
  function Search(c: ImmutCollection, order: seq<string>, alike: string): (r: seq<User>)
    requires forall k | k in order :: k in c.entries
    ensures forall u | u in r :: Contains(u.name, alike)
    ensures forall u | u in r :: exists k | k in order :: c.entries[k] == u
    ensures forall k | k in order && Contains(c.entries[k].name, alike) :: c.entries[k] in r
    decreases |order|
  {
    if |order| == 0 then []
    else
      var rest := Search(c, order[1..], alike);
      var v := c.entries[order[0]];
      if Contains(v.name, alike) then [v] + rest else rest
  }

  /** Taken as a set, the search result is exactly the stored users whose
      name contains `alike`, so it does not depend on the iteration order. */
  lemma SearchFindsExactly(c: ImmutCollection, order: seq<string>, alike: string, u: User)
    requires IsOrder(c, order)
    ensures u in Search(c, order, alike) <==> u in c.entries.Values && Contains(u.name, alike)
  {
    if u in c.entries.Values && Contains(u.name, alike) {
      var k :| k in c.entries && c.entries[k] == u;
      assert k in order;
    }
  }

  /** The three users the tests build. */
  function Sample(): ImmutCollection
  {
    ImmutCollection(map[
      "id1" := User("id1", "name1"),
      "id2" := User("id2", "name2"),
      "not_id" := User("not_id", "you")])
  }

  /** The tests' expectations, for every iteration order: `by_id("id1")`,
      `by_ids(["id1", "id2"])`, and `search("name")` as a set. */
  lemma SampleQueries(order: seq<string>)
    requires IsOrder(Sample(), order)
    ensures ById(Sample(), order, "id1") == Some(User("id1", "name1"))
    ensures ByIds(Sample(), order, ["id1", "id2"]) == [User("id1", "name1"), User("id2", "name2")]
    ensures forall u :: u in Search(Sample(), order, "name") <==> u in {User("id1", "name1"), User("id2", "name2")}
  {
    ByIdsLooksUpEach(Sample(), order, ["id1", "id2"]);
    forall u
      ensures u in Search(Sample(), order, "name") <==> u in {User("id1", "name1"), User("id2", "name2")}
    {
      SampleSearchFinds(order, u);
    }
  }

  /** One user, found by `search("name")` exactly when it is one of the two
      `nameN` users. */
  lemma SampleSearchFinds(order: seq<string>, u: User)
    requires IsOrder(Sample(), order)
    ensures u in Search(Sample(), order, "name") <==> u == User("id1", "name1") || u == User("id2", "name2")
  {
    var c := Sample();
    SearchFindsExactly(c, order, "name", u);
    assert "name1"[..4] == "name";
    assert "name2"[..4] == "name";
    assert !Contains("you", "name");
    if u in c.entries.Values {
      assert u == c.entries["id1"] || u == c.entries["id2"] || u == c.entries["not_id"];
    }
    assert c.entries["id1"] in c.entries.Values;
    assert c.entries["id2"] in c.entries.Values;
  }
}
