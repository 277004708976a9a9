/**
 The user controller: `deleteUser` and `listUsers`.
 */
module Users {
  import opened Wrappers
  import opened Db
  import Seqs
  import Cart

  /** No two user rows share an id (the id column is the primary key). */
  ghost predicate UniqueUserIds(s: Store)
  {
    forall i, j :: 0 <= i < j < |s.users| ==> s.users[i].id != s.users[j].id
  }

  /**
   `deleteUser`: the caller's cart lines, then orders, then the user row, each
   its own statement and none in a transaction. `id` 0 stands for a missing
   or falsy id. Deleting a user that does not exist throws after the first
   two deletions have already happened, and the reply is 500.
   */
  function DeleteUser(s: Store, id: int): (o: Outcome<Option<User>>)
    ensures o.reply.Reply?
    ensures id == 0 ==> o == Outcome(Reply(400, false), s, None)
    ensures id != 0 ==>
      o.store.carts == DeleteCartRowsOf(s.carts, id)
      && o.store.orders == DeleteOrdersOf(s.orders, id)
      && o.store.products == s.products && o.store.nextId == s.nextId
    ensures id != 0 && !HasUser(s, id) ==> o.reply == Reply(500, false) && o.store.users == s.users && o.body.None?
    ensures o.reply.success <==> id != 0 && HasUser(s, id)
    ensures o.reply.success ==>
      var i := UserIndex(s, id).value;
      o.body == Some(s.users[i]) && o.store.users == Seqs.RemoveAt(s.users, i)
  {
    if id == 0 then Outcome(Reply(400, false), s, None)
    else
      var cleared := s.(carts := DeleteCartRowsOf(s.carts, id), orders := DeleteOrdersOf(s.orders, id));
      match UserIndex(s, id)
      case None => Outcome(Reply(500, false), cleared, None)
      case Some(i) => Outcome(Ok, cleared.(users := Seqs.RemoveAt(s.users, i)), Some(s.users[i]))
  }

  /**
   After a successful deletion nothing of the user is left: no user row with
   that id, no cart line and no order of theirs. Every other user, with their
   cart holdings and orders, is still there.
   */
  lemma DeleteUserCascade(s: Store, id: int, u: int, p: int, key: string)
    requires UniqueUserIds(s)
    requires DeleteUser(s, id).reply.success
    ensures var after := DeleteUser(s, id).store;
      !HasUser(after, id)
      && (forall j :: 0 <= j < |after.carts| ==> after.carts[j].userId != id)
      && (forall j :: 0 <= j < |after.orders| ==> after.orders[j].userId != id)
      && (forall j :: 0 <= j < |s.users| && s.users[j].id != id ==> s.users[j] in after.users)
      && (forall j :: 0 <= j < |s.orders| && s.orders[j].userId != id ==> s.orders[j] in after.orders)
      && (u != id ==> Cart.Held(after.carts, u, p, key) == Cart.Held(s.carts, u, p, key))
  {
    var after := DeleteUser(s, id).store;
    var i := UserIndex(s, id).value;
    forall j | 0 <= j < |after.users|
      ensures after.users[j].id != id
    {
      if j < i {
        assert after.users[j] == s.users[j];
      } else {
        assert after.users[j] == s.users[j + 1];
      }
    }
    forall j | 0 <= j < |s.users| && s.users[j].id != id
      ensures s.users[j] in after.users
    {
      if j < i {
        assert after.users[j] == s.users[j];
      } else {
        assert after.users[j - 1] == s.users[j];
      }
    }
    Cart.HeldAfterClear(s.carts, id, u, p, key);
  }

  /** A failed deletion of an unknown user still removed that id's cart lines and orders. */
  lemma DeleteUnknownUserIsPartial(s: Store, id: int)
    requires id != 0 && !HasUser(s, id)
    ensures var o := DeleteUser(s, id);
      o.reply == Reply(500, false) && o.store.users == s.users
      && (forall j :: 0 <= j < |o.store.carts| ==> o.store.carts[j].userId != id)
      && (forall j :: 0 <= j < |o.store.orders| ==> o.store.orders[j].userId != id)
      && ((exists j :: 0 <= j < |s.carts| && s.carts[j].userId == id) ==> o.store != s)
  {
    var o := DeleteUser(s, id);
    if exists j :: 0 <= j < |s.carts| && s.carts[j].userId == id {
      var j :| 0 <= j < |s.carts| && s.carts[j].userId == id;
      assert s.carts[j] !in o.store.carts;
    }
  }

  /** What `listUsers` selects of a user: no password, no timestamp. */
  datatype UserSummary = UserSummary(id: int, name: string, email: string)

  function Summary(u: User): (r: UserSummary)
    ensures r.id == u.id && r.name == u.name && r.email == u.email
  {
    UserSummary(u.id, u.name, u.email)
  }

  function Summaries(us: seq<User>): (r: seq<UserSummary>)
    ensures |r| == |us|
    ensures forall i :: 0 <= i < |us| ==> r[i] == Summary(us[i])
  {
    seq(|us|, i requires 0 <= i < |us| => Summary(us[i]))
  }

  function CreatedAt(u: User): int
  {
    u.createdAt
  }

  /** `listUsers`: every user's id, name and email, newest first. */
  function ListUsers(s: Store): (o: Outcome<seq<UserSummary>>)
    ensures o.reply == Ok && o.store == s
    ensures |o.body| == |s.users|
    ensures exists r :: Seqs.SortedDesc(r, CreatedAt) && multiset(r) == multiset(s.users) && o.body == Summaries(r)
  {
    var r := Seqs.SortDesc(s.users, CreatedAt);
    assert |r| == |multiset(r)| == |s.users|;
    Outcome(Ok, s, Summaries(r))
  }

  /** Every user shows up in the listing. */
  lemma ListUsersComplete(s: Store, j: nat)
    requires j < |s.users|
    ensures Summary(s.users[j]) in ListUsers(s).body
  {
    var r := Seqs.SortDesc(s.users, CreatedAt);
    assert s.users[j] in multiset(r);
    var k :| 0 <= k < |r| && r[k] == s.users[j];
    assert ListUsers(s).body[k] == Summary(s.users[j]);
  }
}
