/**
 The cart controller: `addToCart`, `updateCart`, `getUserCart`, `resetCart`.

 A cart line is keyed by (user, product, size) where the size is kept as the
 JSON text of the one-element list `[size]`. The reference the contracts are
 stated against is `Held`: how many units of a product in a size a user has
 in the cart, summed over the lines carrying that key.
 */
module Cart {
  import opened Wrappers
  import opened Db
  import Json
  import Seqs

  // ---------------------------------------------------------------------------
  // The stored size
  // ---------------------------------------------------------------------------

  /** `JSON.stringify([size])`. */
  function EncodeSize(size: string): string
  {
    Json.EncodeStrings([size])
  }

  /**
   `JSON.parse(sizes)[0]` used as an object key: an empty list yields the key
   "undefined"; text JSON.parse rejects yields `None`.
   */
  function SizeKey(text: string): Option<string>
  {
    match Json.DecodeStrings(text)
    case None => None
    case Some(list) => Some(if |list| == 0 then "undefined" else list[0])
  }

  /** Reading back a stored size gives the size that was stored. */
  lemma SizeRoundTrip(size: string)
    ensures SizeKey(EncodeSize(size)) == Some(size)
  {
    Json.DecodeEncode([size]);
  }

  /** Two sizes are stored as the same text exactly when they are equal. */
  lemma EncodeSizeInjective(a: string, b: string)
    ensures EncodeSize(a) == EncodeSize(b) <==> a == b
  {
    Json.EncodeInjective([a], [b]);
  }

  // ---------------------------------------------------------------------------
  // Keys and held quantities
  // ---------------------------------------------------------------------------

  /** The line belongs to user `u`, product `p`, with stored size text `key`. */
  predicate Keyed(r: CartRow, u: int, p: int, key: string)
  {
    r.userId == u && r.productId == p && r.sizes == key
  }

  predicate SameKey(a: CartRow, b: CartRow)
  {
    Keyed(b, a.userId, a.productId, a.sizes)
  }

  /** At most one line per (user, product, size). */
  ghost predicate UniqueKeys(rows: seq<CartRow>)
  {
    forall i, j :: 0 <= i < j < |rows| ==> !SameKey(rows[i], rows[j])
  }

  ghost predicate HasKeyed(rows: seq<CartRow>, u: int, p: int, key: string)
  {
    exists i :: 0 <= i < |rows| && Keyed(rows[i], u, p, key)
  }

  function Contribution(r: CartRow, u: int, p: int, key: string): int
  {
    if Keyed(r, u, p, key) then r.quantity else 0
  }

  /** Units of product `p` in stored size `key` that user `u` has in the cart. */
  function Held(rows: seq<CartRow>, u: int, p: int, key: string): int
    decreases |rows|
  {
    if |rows| == 0 then 0
    else Held(rows[..|rows| - 1], u, p, key) + Contribution(rows[|rows| - 1], u, p, key)
  }

  lemma HeldAppend(rows: seq<CartRow>, r: CartRow, u: int, p: int, key: string)
    ensures Held(rows + [r], u, p, key) == Held(rows, u, p, key) + Contribution(r, u, p, key)
  {
    assert (rows + [r])[..|rows|] == rows;
  }

  lemma {:induction false} HeldNone(rows: seq<CartRow>, u: int, p: int, key: string)
    requires !HasKeyed(rows, u, p, key)
    ensures Held(rows, u, p, key) == 0
    decreases |rows|
  {
    if |rows| > 0 {
      var init := rows[..|rows| - 1];
      forall j | 0 <= j < |init|
        ensures !Keyed(init[j], u, p, key)
      {
        assert init[j] == rows[j];
      }
      HeldNone(init, u, p, key);
    }
  }

  /** With unique keys, the units held under a key are the quantity of its one line. */
  lemma {:induction false} HeldUnique(rows: seq<CartRow>, i: nat, u: int, p: int, key: string)
    requires UniqueKeys(rows)
    requires i < |rows| && Keyed(rows[i], u, p, key)
    ensures Held(rows, u, p, key) == rows[i].quantity
    decreases |rows|
  {
    var n := |rows|;
    var init := rows[..n - 1];
    if i == n - 1 {
      forall j | 0 <= j < |init|
        ensures !Keyed(init[j], u, p, key)
      {
        assert init[j] == rows[j] && !SameKey(rows[j], rows[i]);
      }
      HeldNone(init, u, p, key);
    } else {
      assert !SameKey(rows[i], rows[n - 1]);
      assert init[i] == rows[i];
      HeldUnique(init, i, u, p, key);
    }
  }

  lemma {:induction false} HeldUpdate(rows: seq<CartRow>, i: nat, r: CartRow, u: int, p: int, key: string)
    requires i < |rows|
    ensures Held(rows[i := r], u, p, key)
      == Held(rows, u, p, key) - Contribution(rows[i], u, p, key) + Contribution(r, u, p, key)
    decreases |rows|
  {
    var n := |rows|;
    var rows' := rows[i := r];
    if i == n - 1 {
      assert rows'[..n - 1] == rows[..n - 1];
    } else {
      assert rows'[..n - 1] == rows[..n - 1][i := r];
      HeldUpdate(rows[..n - 1], i, r, u, p, key);
    }
  }

  lemma {:induction false} HeldRemove(rows: seq<CartRow>, i: nat, u: int, p: int, key: string)
    requires i < |rows|
    ensures Held(Seqs.RemoveAt(rows, i), u, p, key) == Held(rows, u, p, key) - Contribution(rows[i], u, p, key)
    decreases |rows|
  {
    var n := |rows|;
    var rows' := Seqs.RemoveAt(rows, i);
    if i == n - 1 {
      assert rows' == rows[..n - 1];
    } else {
      assert rows'[..n - 2] == Seqs.RemoveAt(rows[..n - 1], i);
      assert rows'[n - 2] == rows[n - 1];
      HeldRemove(rows[..n - 1], i, u, p, key);
    }
  }

  /** Clearing user `c`'s lines leaves nothing held by `c` and everything held by the others. */
  lemma {:induction false} HeldAfterClear(rows: seq<CartRow>, c: int, u: int, p: int, key: string)
    ensures Held(DeleteCartRowsOf(rows, c), u, p, key) == if u == c then 0 else Held(rows, u, p, key)
    decreases |rows|
  {
    if |rows| > 0 {
      var init := rows[..|rows| - 1];
      var last := rows[|rows| - 1];
      HeldAfterClear(init, c, u, p, key);
      var f := DeleteCartRowsOf(init, c);
      if last.userId != c {
        HeldAppend(f, last, u, p, key);
      } else {
        assert DeleteCartRowsOf(rows, c) == f + [];
        assert f + [] == f;
      }
    }
  }

  // ---------------------------------------------------------------------------
  // Handlers
  // ---------------------------------------------------------------------------

  /** The first line with the key: `prisma.cart.findFirst` without an ordering. */
  function FindLine(rows: seq<CartRow>, u: int, p: int, key: string): (r: Option<nat>)
    ensures r.Some? ==> r.value < |rows| && Keyed(rows[r.value], u, p, key)
    ensures r.None? <==> !HasKeyed(rows, u, p, key)
  {
    Seqs.FirstIndex(rows, (c: CartRow) => Keyed(c, u, p, key))
  }

  /**
   The checks every cart mutation starts with: `Number(req.user.id)` falsy
   (0 or NaN, both modelled as 0) is 400, an unknown user is 404.
   */
  function CallerCheck(s: Store, userId: int): (r: Option<Reply>)
    ensures r.Some? <==> userId == 0 || !HasUser(s, userId)
    ensures r.Some? ==> r.value.Reply? && !r.value.success
    ensures r == Some(Reply(400, false)) <==> userId == 0
  {
    if userId == 0 then Some(Reply(400, false))
    else if UserIndex(s, userId).None? then Some(Reply(404, false))
    else None
  }

  /** `addToCart`: one more unit of (product, size), on the existing line or on a new one. */
  function AddToCart(s: Store, userId: int, itemId: int, size: string): (o: Outcome<()>)
    ensures o.reply.Reply? && (o.reply.success <==> userId != 0 && HasUser(s, userId))
    ensures !o.reply.success ==> o.store == s
    ensures userId == 0 ==> o.reply.status == 400
    ensures userId != 0 && !HasUser(s, userId) ==> o.reply.status == 404
    ensures o.store.users == s.users && o.store.products == s.products && o.store.orders == s.orders
  {
    match CallerCheck(s, userId)
    case Some(reply) => Outcome(reply, s, ())
    case None =>
      var key := EncodeSize(size);
      match FindLine(s.carts, userId, itemId, key)
      case Some(i) =>
        var line := s.carts[i];
        Outcome(Ok, s.(carts := s.carts[i := line.(quantity := line.quantity + 1)]), ())
      case None =>
        var line := CartRow(s.nextId, userId, itemId, key, 1);
        Outcome(Ok, s.(carts := s.carts + [line], nextId := s.nextId + 1), ())
  }

  /** `updateCart`: quantity ≤ 0 deletes the matched line, otherwise sets its quantity. */
  function UpdateCart(s: Store, userId: int, itemId: int, size: string, quantity: int): (o: Outcome<()>)
    ensures o.reply.Reply?
    ensures o.reply.success <==> userId != 0 && HasUser(s, userId) && HasKeyed(s.carts, userId, itemId, EncodeSize(size))
    ensures !o.reply.success ==> o.store == s && o.reply.status in {400, 404}
    ensures o.store.users == s.users && o.store.products == s.products && o.store.orders == s.orders
    ensures |o.store.carts| == |s.carts| - (if o.reply.success && quantity <= 0 then 1 else 0)
  {
    match CallerCheck(s, userId)
    case Some(reply) => Outcome(reply, s, ())
    case None =>
      match FindLine(s.carts, userId, itemId, EncodeSize(size))
      case None => Outcome(Reply(404, false), s, ())
      case Some(i) =>
        if quantity <= 0 then Outcome(Ok, s.(carts := Seqs.RemoveAt(s.carts, i)), ())
        else Outcome(Ok, s.(carts := s.carts[i := s.carts[i].(quantity := quantity)]), ())
  }

  /** The cart read back: product id -> size -> quantity. */
  type CartData = map<int, map<string, int>>

  /**
   The one key a plain object does not store: assigning a number to
   `obj["__proto__"]` runs `Object.prototype`'s setter, which ignores it.
   */
  const ProtoKey: string := "__proto__"

  /** `if (!cartData[p]) cartData[p] = {}; cartData[p][size] = q`. */
  function Put(d: CartData, p: int, size: string, q: int): CartData
  {
    var entries := if p in d then d[p] else map[];
    d[p := if size == ProtoKey then entries else entries[size := q]]
  }

  /**
   `cartItems.forEach(...)` over the user's lines in store order; a later line
   with the same product and size overwrites an earlier one. `None` when
   JSON.parse throws on a line.
   */
  function Group(rows: seq<CartRow>, u: int): Option<CartData>
    decreases |rows|
  {
    if |rows| == 0 then Some(map[])
    else
      var last := rows[|rows| - 1];
      match Group(rows[..|rows| - 1], u)
      case None => None
      case Some(d) =>
        if last.userId != u then Some(d)
        else
          match SizeKey(last.sizes)
          case None => None
          case Some(size) => Some(Put(d, last.productId, size, last.quantity))
  }

  /** `getUserCart`: a read; the store never changes. */
  function GetUserCart(s: Store, userId: int): (o: Outcome<Option<CartData>>)
    ensures o.store == s
    ensures o.reply.Reply? && (o.reply.success <==> o.body.Some?)
    ensures userId == 0 <==> o.reply == Reply(400, false)
  {
    if userId == 0 then Outcome(Reply(400, false), s, None)
    else
      match Group(s.carts, userId)
      case None => Outcome(Reply(200, false), s, None)
      case Some(d) => Outcome(Ok, s, Some(d))
  }

  /** `resetCart`: the caller's lines go, everybody else's stay. */
  function ResetCart(s: Store, userId: int): (o: Outcome<()>)
    ensures o.reply.Reply? && (o.reply.success <==> userId != 0 && HasUser(s, userId))
    ensures !o.reply.success ==> o.store == s
    ensures o.reply.success ==> forall i :: 0 <= i < |o.store.carts| ==> o.store.carts[i].userId != userId
    ensures o.store.users == s.users && o.store.products == s.products && o.store.orders == s.orders
  {
    match CallerCheck(s, userId)
    case Some(reply) => Outcome(reply, s, ())
    case None => Outcome(Ok, s.(carts := DeleteCartRowsOf(s.carts, userId)), ())
  }

  // ---------------------------------------------------------------------------
  // Properties
  // ---------------------------------------------------------------------------

  /** A successful add puts exactly one more unit under its key and leaves every other key alone. */
  lemma AddToCartAddsOne(s: Store, userId: int, itemId: int, size: string, u: int, p: int, key: string)
    requires userId != 0 && HasUser(s, userId)
    ensures var after := AddToCart(s, userId, itemId, size).store.carts;
      Held(after, u, p, key) ==
        Held(s.carts, u, p, key) + (if u == userId && p == itemId && key == EncodeSize(size) then 1 else 0)
  {
    var k := EncodeSize(size);
    match FindLine(s.carts, userId, itemId, k)
    case Some(i) =>
      var line := s.carts[i];
      HeldUpdate(s.carts, i, line.(quantity := line.quantity + 1), u, p, key);
    case None =>
      HeldAppend(s.carts, CartRow(s.nextId, userId, itemId, k, 1), u, p, key);
  }

  /** A successful add that finds no line appends one with quantity 1 and the encoded size. */
  lemma AddToCartNewLine(s: Store, userId: int, itemId: int, size: string)
    requires userId != 0 && HasUser(s, userId)
    requires !HasKeyed(s.carts, userId, itemId, EncodeSize(size))
    ensures var after := AddToCart(s, userId, itemId, size).store.carts;
      |after| == |s.carts| + 1 && after[..|s.carts|] == s.carts
      && Keyed(after[|s.carts|], userId, itemId, EncodeSize(size))
      && after[|s.carts|].quantity == 1
      && SizeKey(after[|s.carts|].sizes) == Some(size)
  {
    SizeRoundTrip(size);
    var after := AddToCart(s, userId, itemId, size).store.carts;
    assert after == s.carts + [CartRow(s.nextId, userId, itemId, EncodeSize(size), 1)];
  }

  /** A successful add that finds a line keeps the number of lines and raises that line by one. */
  lemma AddToCartExistingLine(s: Store, userId: int, itemId: int, size: string, i: nat)
    requires userId != 0 && HasUser(s, userId) && UniqueKeys(s.carts)
    requires i < |s.carts| && Keyed(s.carts[i], userId, itemId, EncodeSize(size))
    ensures var after := AddToCart(s, userId, itemId, size).store.carts;
      |after| == |s.carts| && after[i].quantity == s.carts[i].quantity + 1
      && forall j :: 0 <= j < |after| && j != i ==> after[j] == s.carts[j]
  {
    var f := FindLine(s.carts, userId, itemId, EncodeSize(size));
    assert f.Some?;
    if f.value != i {
      assert SameKey(s.carts[f.value], s.carts[i]) && SameKey(s.carts[i], s.carts[f.value]);
    }
  }

  /** `addToCart` keeps at most one line per (user, product, size). */
  lemma AddToCartKeepsKeysUnique(s: Store, userId: int, itemId: int, size: string)
    requires UniqueKeys(s.carts)
    ensures UniqueKeys(AddToCart(s, userId, itemId, size).store.carts)
  {
    var after := AddToCart(s, userId, itemId, size).store.carts;
    if userId != 0 && HasUser(s, userId) {
      var k := EncodeSize(size);
      match FindLine(s.carts, userId, itemId, k)
      case Some(i) =>
        assert forall j :: 0 <= j < |after| ==> SameKey(after[j], s.carts[j]) && SameKey(s.carts[j], after[j]);
      case None =>
        assert after == s.carts + [CartRow(s.nextId, userId, itemId, k, 1)];
        forall i, j | 0 <= i < j < |after|
          ensures !SameKey(after[i], after[j])
        {
          if j == |s.carts| {
            assert !Keyed(s.carts[i], userId, itemId, k);
          }
        }
    }
  }

  /** Adding the same (product, size) twice to a cart without it yields one line with quantity 2. */
  lemma AddTwiceOneLine(s: Store, userId: int, itemId: int, size: string)
    requires userId != 0 && HasUser(s, userId) && UniqueKeys(s.carts)
    requires !HasKeyed(s.carts, userId, itemId, EncodeSize(size))
    ensures var twice := AddToCart(AddToCart(s, userId, itemId, size).store, userId, itemId, size).store.carts;
      |twice| == |s.carts| + 1 && Keyed(twice[|s.carts|], userId, itemId, EncodeSize(size))
      && twice[|s.carts|].quantity == 2
      && Held(twice, userId, itemId, EncodeSize(size)) == 2
  {
    var once := AddToCart(s, userId, itemId, size).store;
    AddToCartNewLine(s, userId, itemId, size);
    AddToCartKeepsKeysUnique(s, userId, itemId, size);
    assert HasUser(once, userId);
    AddToCartExistingLine(once, userId, itemId, size, |s.carts|);
    AddToCartAddsOne(s, userId, itemId, size, userId, itemId, EncodeSize(size));
    AddToCartAddsOne(once, userId, itemId, size, userId, itemId, EncodeSize(size));
    HeldNone(s.carts, userId, itemId, EncodeSize(size));
  }

  /**
   With unique keys, a successful update leaves `quantity` units under its key
   (none when `quantity` ≤ 0) and every other key as it was.
   */
  lemma UpdateCartSetsHeld(s: Store, userId: int, itemId: int, size: string, quantity: int, u: int, p: int, key: string)
    requires UniqueKeys(s.carts)
    requires UpdateCart(s, userId, itemId, size, quantity).reply.success
    ensures var after := UpdateCart(s, userId, itemId, size, quantity).store.carts;
      Held(after, u, p, key) ==
        if u == userId && p == itemId && key == EncodeSize(size) then (if quantity <= 0 then 0 else quantity)
        else Held(s.carts, u, p, key)
  {
    var k := EncodeSize(size);
    var i := FindLine(s.carts, userId, itemId, k).value;
    if Keyed(s.carts[i], u, p, key) {
      HeldUnique(s.carts, i, u, p, key);
    }
    if quantity <= 0 {
      HeldRemove(s.carts, i, u, p, key);
    } else {
      HeldUpdate(s.carts, i, s.carts[i].(quantity := quantity), u, p, key);
    }
  }

  /** `updateCart` keeps at most one line per (user, product, size). */
  lemma UpdateCartKeepsKeysUnique(s: Store, userId: int, itemId: int, size: string, quantity: int)
    requires UniqueKeys(s.carts)
    ensures UniqueKeys(UpdateCart(s, userId, itemId, size, quantity).store.carts)
  {
    var o := UpdateCart(s, userId, itemId, size, quantity);
    if o.reply.success {
      var i := FindLine(s.carts, userId, itemId, EncodeSize(size)).value;
      var after := o.store.carts;
      if quantity <= 0 {
        forall a, b | 0 <= a < b < |after|
          ensures !SameKey(after[a], after[b])
        {
          var a' := if a < i then a else a + 1;
          var b' := if b < i then b else b + 1;
          assert after[a] == s.carts[a'] && after[b] == s.carts[b'];
        }
      } else {
        assert forall j :: 0 <= j < |after| ==> SameKey(after[j], s.carts[j]) && SameKey(s.carts[j], after[j]);
      }
    }
  }

  /** A successful update touches only the matched line: every other line keeps its place and value. */
  lemma UpdateCartFrame(s: Store, userId: int, itemId: int, size: string, quantity: int)
    requires UpdateCart(s, userId, itemId, size, quantity).reply.success
    ensures var i := FindLine(s.carts, userId, itemId, EncodeSize(size)).value;
      var after := UpdateCart(s, userId, itemId, size, quantity).store.carts;
      (quantity <= 0 ==> after == s.carts[..i] + s.carts[i + 1..])
      && (quantity > 0 ==>
            (|after| == |s.carts| && after[i].quantity == quantity
             && SameKey(after[i], s.carts[i]) && after[i].id == s.carts[i].id
             && forall j :: 0 <= j < |after| && j != i ==> after[j] == s.carts[j]))
  {
  }

  /** Resetting leaves the caller nothing and every other user everything. */
  lemma ResetCartHeld(s: Store, userId: int, u: int, p: int, key: string)
    requires userId != 0 && HasUser(s, userId)
    ensures Held(ResetCart(s, userId).store.carts, u, p, key) == if u == userId then 0 else Held(s.carts, u, p, key)
  {
    HeldAfterClear(s.carts, userId, u, p, key);
  }

  /** Resetting twice is the same as resetting once. */
  lemma ResetCartIdempotent(s: Store, userId: int)
    ensures ResetCart(ResetCart(s, userId).store, userId) == ResetCart(s, userId)
  {
    if userId != 0 && HasUser(s, userId) {
      DeleteCartRowsOfIdempotent(s.carts, userId);
    }
  }

  /** Every one of the user's lines holds a size the way `addToCart` writes it. */
  ghost predicate Canonical(rows: seq<CartRow>, u: int)
  {
    forall i :: 0 <= i < |rows| && rows[i].userId == u ==>
      SizeKey(rows[i].sizes).Some? && rows[i].sizes == EncodeSize(SizeKey(rows[i].sizes).value)
  }

  /** `addToCart` writes sizes the way `getUserCart` reads them: it keeps every user's lines canonical. */
  lemma AddToCartKeepsCanonical(s: Store, userId: int, itemId: int, size: string, u: int)
    requires Canonical(s.carts, u)
    ensures Canonical(AddToCart(s, userId, itemId, size).store.carts, u)
  {
    var after := AddToCart(s, userId, itemId, size).store.carts;
    SizeRoundTrip(size);
    forall i | 0 <= i < |after| && after[i].userId == u
      ensures SizeKey(after[i].sizes).Some? && after[i].sizes == EncodeSize(SizeKey(after[i].sizes).value)
    {
      if i < |s.carts| {
        assert after[i].sizes == s.carts[i].sizes && after[i].userId == s.carts[i].userId;
      } else {
        assert after[i].sizes == EncodeSize(size);
      }
    }
  }

  /** `updateCart` keeps every user's lines canonical: it changes quantities and deletes lines only. */
  lemma UpdateCartKeepsCanonical(s: Store, userId: int, itemId: int, size: string, quantity: int, u: int)
    requires Canonical(s.carts, u)
    ensures Canonical(UpdateCart(s, userId, itemId, size, quantity).store.carts, u)
  {
    var o := UpdateCart(s, userId, itemId, size, quantity);
    if o.reply.success {
      var i := FindLine(s.carts, userId, itemId, EncodeSize(size)).value;
      var after := o.store.carts;
      forall j | 0 <= j < |after| && after[j].userId == u
        ensures SizeKey(after[j].sizes).Some? && after[j].sizes == EncodeSize(SizeKey(after[j].sizes).value)
      {
        var j' := if quantity <= 0 && j >= i then j + 1 else j;
        assert after[j].sizes == s.carts[j'].sizes && after[j].userId == s.carts[j'].userId;
      }
    }
  }

  /** `resetCart` keeps every user's lines canonical: it only deletes lines. */
  lemma ResetCartKeepsCanonical(s: Store, userId: int, u: int)
    requires Canonical(s.carts, u)
    ensures Canonical(ResetCart(s, userId).store.carts, u)
  {
    var after := ResetCart(s, userId).store.carts;
    forall j | 0 <= j < |after| && after[j].userId == u
      ensures SizeKey(after[j].sizes).Some? && after[j].sizes == EncodeSize(SizeKey(after[j].sizes).value)
    {
      var k :| 0 <= k < |s.carts| && s.carts[k] == after[j];
    }
  }

  /** Writing one entry of the grouped cart changes that entry only. */
  lemma PutAt(d: CartData, p0: int, s0: string, q: int, p: int, size: string)
    ensures var d' := Put(d, p0, s0, q);
      ((p in d' && size in d'[p]) <==> (p == p0 && size == s0 && s0 != ProtoKey) || (p in d && size in d[p]))
      && (p == p0 && size == s0 && s0 != ProtoKey ==> d'[p][size] == q)
      && (!(p == p0 && size == s0) && p in d && size in d[p] ==> d'[p][size] == d[p][size])
  {
  }

  lemma HasKeyedSnoc(rows: seq<CartRow>, u: int, p: int, key: string)
    requires |rows| > 0
    ensures HasKeyed(rows, u, p, key)
      <==> HasKeyed(rows[..|rows| - 1], u, p, key) || Keyed(rows[|rows| - 1], u, p, key)
  {
    var init := rows[..|rows| - 1];
    if HasKeyed(rows, u, p, key) {
      var i :| 0 <= i < |rows| && Keyed(rows[i], u, p, key);
      if i < |init| {
        assert Keyed(init[i], u, p, key);
      }
    }
    if HasKeyed(init, u, p, key) {
      var i :| 0 <= i < |init| && Keyed(init[i], u, p, key);
      assert Keyed(rows[i], u, p, key);
    }
  }

  /** With unique keys, the last line's key occurs nowhere before it. */
  lemma LastKeyFresh(rows: seq<CartRow>)
    requires |rows| > 0 && UniqueKeys(rows)
    ensures var last := rows[|rows| - 1];
      !HasKeyed(rows[..|rows| - 1], last.userId, last.productId, last.sizes)
  {
    var n := |rows|;
    var init := rows[..n - 1];
    var last := rows[n - 1];
    forall j | 0 <= j < |init|
      ensures !Keyed(init[j], last.userId, last.productId, last.sizes)
    {
      assert init[j] == rows[j] && !SameKey(rows[j], rows[n - 1]);
    }
  }

  /** Reading one (product, size) entry of the grouped cart. */
  lemma {:induction false} GroupAt(rows: seq<CartRow>, u: int, p: int, size: string)
    requires UniqueKeys(rows) && Canonical(rows, u)
    ensures Group(rows, u).Some?
    ensures var d := Group(rows, u).value;
      (p in d && size in d[p]) <==> size != ProtoKey && HasKeyed(rows, u, p, EncodeSize(size))
    ensures var d := Group(rows, u).value;
      p in d && size in d[p] ==> d[p][size] == Held(rows, u, p, EncodeSize(size))
    decreases |rows|
  {
    var k := EncodeSize(size);
    if |rows| > 0 {
      var n := |rows|;
      var init := rows[..n - 1];
      var last := rows[n - 1];
      assert forall i :: 0 <= i < |init| ==> init[i] == rows[i];
      GroupAt(init, u, p, size);
      HasKeyedSnoc(rows, u, p, k);
      var d := Group(init, u).value;
      if last.userId == u {
        var s0 := SizeKey(last.sizes).value;
        assert last.sizes == EncodeSize(s0);
        EncodeSizeInjective(size, s0);
        assert Group(rows, u) == Some(Put(d, last.productId, s0, last.quantity));
        PutAt(d, last.productId, s0, last.quantity, p, size);
        if last.productId == p && s0 == size {
          LastKeyFresh(rows);
          HeldNone(init, u, p, k);
        }
      }
    }
  }

  /** Entry (p, size) of the grouped cart is there exactly when user `u` holds the line, with its units. */
  ghost predicate ReportsAt(d: CartData, rows: seq<CartRow>, u: int, p: int, size: string)
  {
    ((p in d && size in d[p]) <==> size != ProtoKey && HasKeyed(rows, u, p, EncodeSize(size)))
    && (p in d && size in d[p] ==> d[p][size] == Held(rows, u, p, EncodeSize(size)))
  }

  /**
   The grouped cart `d` shows, for every product and size, exactly the lines
   user `u` holds, with the units held.
   */
  ghost predicate ReportsHeld(d: CartData, rows: seq<CartRow>, u: int)
  {
    forall p, size :: ReportsAt(d, rows, u, p, size)
  }

  /** Lines written by `addToCart` always parse, so grouping them cannot throw. */
  lemma {:induction false} GroupDefined(rows: seq<CartRow>, u: int)
    requires Canonical(rows, u)
    ensures Group(rows, u).Some?
    decreases |rows|
  {
    if |rows| > 0 {
      var init := rows[..|rows| - 1];
      assert forall i :: 0 <= i < |init| ==> init[i] == rows[i];
      GroupDefined(init, u);
    }
  }

  lemma GroupReportsHeld(rows: seq<CartRow>, u: int)
    requires UniqueKeys(rows) && Canonical(rows, u)
    ensures Group(rows, u).Some? && ReportsHeld(Group(rows, u).value, rows, u)
  {
    GroupDefined(rows, u);
    var d := Group(rows, u).value;
    forall p, size
      ensures ReportsAt(d, rows, u, p, size)
    {
      GroupAt(rows, u, p, size);
    }
  }

  /**
   `getUserCart` reports, for every product and size, exactly the lines the
   caller holds, with the units held; other users' lines never show.
   */
  lemma GetUserCartReportsHeld(s: Store, userId: int)
    requires userId != 0 && UniqueKeys(s.carts) && Canonical(s.carts, userId)
    ensures GetUserCart(s, userId).reply == Ok
    ensures GetUserCart(s, userId).body.Some?
    ensures ReportsHeld(GetUserCart(s, userId).body.value, s.carts, userId)
  {
    GroupReportsHeld(s.carts, userId);
  }

  /** A cart with no line of the user reads back as the empty mapping. */
  lemma {:induction false} GroupOfNoLines(rows: seq<CartRow>, u: int)
    requires forall i :: 0 <= i < |rows| ==> rows[i].userId != u
    ensures Group(rows, u) == Some(map[])
    decreases |rows|
  {
    if |rows| > 0 {
      GroupOfNoLines(rows[..|rows| - 1], u);
    }
  }

  /** Setting a line's quantity to 0 removes it: the cart read afterwards has no entry for it. */
  lemma ZeroQuantityThenReadOmits(s: Store, userId: int, itemId: int, size: string)
    requires UniqueKeys(s.carts) && Canonical(s.carts, userId)
    requires UpdateCart(s, userId, itemId, size, 0).reply.success
    ensures var after := UpdateCart(s, userId, itemId, size, 0).store;
      var d := GetUserCart(after, userId).body;
      d.Some? && !(itemId in d.value && size in d.value[itemId])
  {
    var after := UpdateCart(s, userId, itemId, size, 0).store;
    var k := EncodeSize(size);
    var i := FindLine(s.carts, userId, itemId, k).value;
    UpdateCartKeepsKeysUnique(s, userId, itemId, size, 0);
    assert after.carts == Seqs.RemoveAt(s.carts, i);
    assert Canonical(after.carts, userId) by {
      forall j | 0 <= j < |after.carts| && after.carts[j].userId == userId
        ensures SizeKey(after.carts[j].sizes).Some?
        ensures after.carts[j].sizes == EncodeSize(SizeKey(after.carts[j].sizes).value)
      {
        var j' := if j < i then j else j + 1;
        assert after.carts[j] == s.carts[j'];
      }
    }
    forall j | 0 <= j < |after.carts|
      ensures !Keyed(after.carts[j], userId, itemId, k)
    {
      if j < i {
        assert after.carts[j] == s.carts[j] && !SameKey(s.carts[j], s.carts[i]);
      } else {
        assert after.carts[j] == s.carts[j + 1] && !SameKey(s.carts[i], s.carts[j + 1]);
      }
    }
    GroupAt(after.carts, userId, itemId, size);
  }
}
