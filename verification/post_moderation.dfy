/** The post moderation typestate of 2_idioms/2_1_type_safety/src/main.rs.
    The phantom `State` parameter becomes a field; a method that the Rust
    type of a state does not have is a `requires` on that field. */
module PostModeration {
  import opened Base

  datatype State = New | Unmoderated | Published | Deleted

  datatype Post = Post(id: nat, userId: nat, title: string, body: string, state: State)

  /** Two posts hold the same data, whatever their states. */
  predicate SameContent(p: Post, q: Post)
  {
    p.id == q.id && p.userId == q.userId && p.title == q.title && p.body == q.body
  }

  /** `Post<New>::publish`. */
  function Publish(p: Post): (r: Post)
    requires p.state == New
    ensures r.state == Unmoderated && SameContent(r, p)
  {
    Post(p.id, p.userId, p.title, p.body, Unmoderated)
  }

  /** `Post<Unmoderated>::allow`. */
  function Allow(p: Post): (r: Post)
    requires p.state == Unmoderated
    ensures r.state == Published && SameContent(r, p)
  {
    Post(p.id, p.userId, p.title, p.body, Published)
  }

  /** `Post<Published>::delete`. */
  function Delete(p: Post): (r: Post)
    requires p.state == Published
    ensures r.state == Deleted && SameContent(r, p)
  {
    Post(p.id, p.userId, p.title, p.body, Deleted)
  }

  /** `Post<Deleted>::deny`. */
  function Deny(p: Post): (r: Post)
    requires p.state == Deleted
    ensures r.state == Unmoderated && SameContent(r, p)
  {
    Post(p.id, p.userId, p.title, p.body, Unmoderated)
  }

  datatype Action = DoPublish | DoAllow | DoDelete | DoDeny

  /** One method call on a post: `None` when the post's type has no such
      method, which the Rust compiler rejects. */
  function Step(p: Post, a: Action): Option<Post>
  {
    match a
    case DoPublish => if p.state == New then Some(Publish(p)) else None
    case DoAllow => if p.state == Unmoderated then Some(Allow(p)) else None
    case DoDelete => if p.state == Published then Some(Delete(p)) else None
    case DoDeny => if p.state == Deleted then Some(Deny(p)) else None
  }

  /** A chain of method calls; `None` as soon as one does not type-check. */
  function Run(p: Post, actions: seq<Action>): Option<Post>
    decreases |actions|
  {
    if |actions| == 0 then Some(p)
    else match Step(p, actions[0])
      case None => None
      case Some(q) => Run(q, actions[1..])
  }

  /** Each state has exactly one method, no transition leads back to `New`,
      and every transition keeps the post's data. */
  lemma StepFacts(p: Post, a: Action)
    ensures Step(p, a).Some? <==>
      (a == DoPublish && p.state == New) || (a == DoAllow && p.state == Unmoderated)
      || (a == DoDelete && p.state == Published) || (a == DoDeny && p.state == Deleted)
    ensures Step(p, a).Some? ==> Step(p, a).value.state != New && SameContent(Step(p, a).value, p)
  {
  }

  /** Along any chain of calls the data never changes, and after the first
      call the post is never `New` again. */
  lemma {:induction false} RunKeepsContent(p: Post, actions: seq<Action>)
    requires Run(p, actions).Some?
    ensures SameContent(Run(p, actions).value, p)
    ensures |actions| > 0 ==> Run(p, actions).value.state != New
    decreases |actions|
  {
    if |actions| > 0 {
      var q := Step(p, actions[0]).value;
      StepFacts(p, actions[0]);
      RunKeepsContent(q, actions[1..]);
      if |actions| > 1 {
        assert Run(p, actions) == Run(q, actions[1..]);
      } else {
        assert Run(p, actions) == Some(q);
      }
    }
  }

  /** Allow, delete and deny bring an unmoderated post back to where it was. */
  lemma ModerationCycle(p: Post)
    requires p.state == Unmoderated
    ensures Run(p, [DoAllow, DoDelete, DoDeny]) == Some(p)
  {
    assert [DoAllow, DoDelete, DoDeny][1..] == [DoDelete, DoDeny];
    assert [DoDelete, DoDeny][1..] == [DoDeny];
    assert [DoDeny][1..] == [];
  }
}
