/**
 The product controller: `addProduct`, `listProduct`, `removeProduct`,
 `singleProduct` and `updateProduct`. The image host is a parameter that
 maps a local file path to the hosted URL, or fails.
 */
module Products {
  import opened Wrappers
  import opened Db
  import Json
  import Seqs

  // ---------------------------------------------------------------------------
  // Image slots
  // ---------------------------------------------------------------------------

  /** The multipart file fields the handler reads, in slot order. */
  const SlotNames: seq<string> := ["image1", "image2", "image3", "image4", "image5", "image6"]

  /**
   The uploaded files by field name, each given by the path of its first file.
   A field without a file is absent.
   */
  type Files = map<string, string>

  /** `req.files.imageK && req.files.imageK[0]` for K = 1..6. */
  function Slots(files: Files): (r: seq<Option<string>>)
    ensures |r| == |SlotNames|
    ensures forall k :: 0 <= k < |r| ==> r[k] == (if SlotNames[k] in files then Some(files[SlotNames[k]]) else None)
  {
    seq(|SlotNames|, k requires 0 <= k < |SlotNames| =>
      if SlotNames[k] in files then Some(files[SlotNames[k]]) else None)
  }

  /** How many slots carry a file. */
  function Count(slots: seq<Option<string>>): (n: nat)
    ensures n <= |slots|
  {
    if |slots| == 0 then 0 else (if slots[0].Some? then 1 else 0) + Count(slots[1..])
  }

  /** The filled slots' paths with the empty slots dropped: the `filter` over the six slots. */
  function Supplied(slots: seq<Option<string>>): (r: seq<string>)
    ensures |r| == Count(slots)
    ensures forall x :: x in r <==> Some(x) in slots
  {
    if |slots| == 0 then []
    else
      var rest := Supplied(slots[1..]);
      assert forall x :: Some(x) in slots <==> Some(x) == slots[0] || Some(x) in slots[1..] by {
        assert slots == [slots[0]] + slots[1..];
      }
      (if slots[0].Some? then [slots[0].value] else []) + rest
  }

  /**
   A filled slot's path sits in `Supplied` at the position given by the number
   of filled slots before it, so `Supplied` keeps slot order.
   */
  lemma {:induction false} SuppliedAt(slots: seq<Option<string>>, i: nat)
    requires i < |slots| && slots[i].Some?
    ensures Count(slots[..i]) < |Supplied(slots)|
    ensures Supplied(slots)[Count(slots[..i])] == slots[i].value
    decreases i
  {
    if i > 0 {
      SuppliedAt(slots[1..], i - 1);
      assert slots[..i][1..] == slots[1..][..i - 1];
    }
  }

  /** Filled slots before a position are a prefix count: more slots, no fewer files. */
  lemma {:induction false} CountPrefix(slots: seq<Option<string>>, i: nat, j: nat)
    requires i < j <= |slots| && slots[i].Some?
    ensures Count(slots[..i]) < Count(slots[..j])
    decreases i
  {
    if i == 0 {
      assert slots[..j][0] == slots[0];
    } else {
      CountPrefix(slots[1..], i - 1, j - 1);
      assert slots[..i][1..] == slots[1..][..i - 1];
      assert slots[..j][1..] == slots[1..][..j - 1];
    }
  }

  /** Two filled slots keep their relative order among the supplied paths. */
  lemma SuppliedInSlotOrder(slots: seq<Option<string>>, i: nat, j: nat)
    requires i < j < |slots| && slots[i].Some? && slots[j].Some?
    ensures exists a, b :: (0 <= a < b < |Supplied(slots)|
      && Supplied(slots)[a] == slots[i].value && Supplied(slots)[b] == slots[j].value)
  {
    SuppliedAt(slots, i);
    SuppliedAt(slots, j);
    CountPrefix(slots, i, j);
  }

  /**
   `Promise.all` over the uploads: every path's URL in order, or a rejection
   as soon as any upload fails.
   */
  function UploadAll(paths: seq<string>, upload: string -> Option<string>): (r: Option<seq<string>>)
    ensures r.Some? <==> forall i :: 0 <= i < |paths| ==> upload(paths[i]).Some?
    ensures r.Some? ==> (|r.value| == |paths|
      && forall i :: 0 <= i < |paths| ==> upload(paths[i]) == Some(r.value[i]))
  {
    if |paths| == 0 then Some([])
    else
      match upload(paths[0])
      case None => None
      case Some(url) =>
        match UploadAll(paths[1..], upload)
        case None =>
          assert exists i :: 0 <= i < |paths| && !upload(paths[i]).Some? by {
            var k :| 0 <= k < |paths[1..]| && !upload(paths[1..][k]).Some?;
            assert paths[1..][k] == paths[k + 1];
          }
          None
        case Some(rest) =>
          assert forall i :: 1 <= i < |paths| ==> paths[i] == paths[1..][i - 1];
          Some([url] + rest)
  }

  // ---------------------------------------------------------------------------
  // addProduct
  // ---------------------------------------------------------------------------

  /**
   The text fields of the product form. `sizes` is the JSON text of the size
   list and `bestseller` the raw field, each `None` when not sent.
   */
  datatype ProductForm = ProductForm(
    name: string,
    description: string,
    price: int,
    category: string,
    subCategory: string,
    sizes: Option<string>,
    bestseller: Option<string>)

  /** `JSON.parse(sizes)`: `None` where the parse throws. */
  function ParseSizes(sizes: Option<string>): (r: Option<seq<string>>)
    ensures sizes.None? ==> r.None?
    ensures forall xs :: sizes == Some(Json.EncodeStrings(xs)) ==> r == Some(xs)
  {
    assert forall xs :: Json.DecodeStrings(Json.EncodeStrings(xs)) == Some(xs) by {
      forall xs { Json.DecodeEncode(xs); }
    }
    match sizes
    case None => None
    case Some(text) => Json.DecodeStrings(text)
  }

  /** `addProduct`'s parser: the flag is set only by the exact text "true". */
  function AddFlag(bestseller: Option<string>): (b: bool)
    ensures b <==> bestseller == Some("true")
  {
    match bestseller
    case Some(t) => t == "true"
    case None => false
  }

  /**
   `addProduct`. A failed upload or an unparsable size list rejects outside
   the try/catch, so nothing is answered and nothing is stored. Otherwise the
   product is created and answered with 201.
   */
  function AddProduct(s: Store, form: ProductForm, files: Files, upload: string -> Option<string>, now: int)
    : (o: Outcome<Option<Product>>)
    ensures o.reply.NoReply? <==>
      UploadAll(Supplied(Slots(files)), upload).None? || ParseSizes(form.sizes).None?
    ensures o.reply.NoReply? ==> o.store == s && o.body.None?
    ensures o.reply.Reply? ==> o.reply == Reply(201, true) && o.body.Some?
    ensures o.reply.Reply? ==>
      var p := o.body.value;
      o.store == s.(products := s.products + [p], nextId := s.nextId + 1)
      && p.id == s.nextId && p.createdAt == now
      && p.name == form.name && p.description == form.description && p.price == form.price
      && p.category == form.category && p.subCategory == form.subCategory
      && Some(p.sizes) == ParseSizes(form.sizes)
      && (p.bestSeller <==> form.bestseller == Some("true"))
      && |p.image| == Count(Slots(files))
      && forall k :: 0 <= k < |p.image| ==> upload(Supplied(Slots(files))[k]) == Some(p.image[k])
  {
    match UploadAll(Supplied(Slots(files)), upload)
    case None => Outcome(NoReply, s, None)
    case Some(urls) =>
      match ParseSizes(form.sizes)
      case None => Outcome(NoReply, s, None)
      case Some(sizes) =>
        var p := Product(s.nextId, form.name, form.description, form.price, form.category,
          form.subCategory, sizes, AddFlag(form.bestseller), urls, now);
        Outcome(Reply(201, true), s.(products := s.products + [p], nextId := s.nextId + 1), Some(p))
  }

  /**
   The image sent in slot `i` is hosted at the position of the new product's
   image list given by the filled slots before it.
   */
  lemma AddProductImageOfSlot(s: Store, form: ProductForm, files: Files, upload: string -> Option<string>, now: int, i: nat)
    requires i < |SlotNames| && SlotNames[i] in files
    ensures AddProduct(s, form, files, upload, now).reply.Reply? ==>
      var p := AddProduct(s, form, files, upload, now).body.value;
      var k := Count(Slots(files)[..i]);
      k < |p.image| && upload(files[SlotNames[i]]) == Some(p.image[k])
  {
    SuppliedAt(Slots(files), i);
  }

  // ---------------------------------------------------------------------------
  // listProduct and singleProduct
  // ---------------------------------------------------------------------------

  /** The columns the catalog reads select: everything but the creation time. */
  datatype ProductView = ProductView(
    id: int,
    name: string,
    description: string,
    price: int,
    image: seq<string>,
    category: string,
    subCategory: string,
    sizes: seq<string>,
    bestSeller: bool)

  function View(p: Product): (v: ProductView)
    ensures v.id == p.id && v.name == p.name && v.description == p.description
    ensures v.price == p.price && v.image == p.image && v.category == p.category
    ensures v.subCategory == p.subCategory && v.sizes == p.sizes && v.bestSeller == p.bestSeller
  {
    ProductView(p.id, p.name, p.description, p.price, p.image, p.category, p.subCategory, p.sizes, p.bestSeller)
  }

  function Views(ps: seq<Product>): (r: seq<ProductView>)
    ensures |r| == |ps|
    ensures forall i :: 0 <= i < |ps| ==> r[i] == View(ps[i])
  {
    seq(|ps|, i requires 0 <= i < |ps| => View(ps[i]))
  }

  function CreatedAt(p: Product): int
  {
    p.createdAt
  }

  /** `listProduct`: the whole catalog, newest first. */
  function ListProduct(s: Store): (o: Outcome<seq<ProductView>>)
    ensures o.reply == Ok && o.store == s
    ensures |o.body| == |s.products|
    ensures exists r :: Seqs.SortedDesc(r, CreatedAt) && multiset(r) == multiset(s.products) && o.body == Views(r)
  {
    var r := Seqs.SortDesc(s.products, CreatedAt);
    assert |r| == |multiset(r)| == |s.products|;
    Outcome(Ok, s, Views(r))
  }

  /** Every product shows up in the catalog listing. */
  lemma ListProductComplete(s: Store, j: nat)
    requires j < |s.products|
    ensures View(s.products[j]) in ListProduct(s).body
  {
    var r := Seqs.SortDesc(s.products, CreatedAt);
    assert s.products[j] in multiset(r);
    var k :| 0 <= k < |r| && r[k] == s.products[j];
    assert ListProduct(s).body[k] == View(s.products[j]);
  }

  /** `singleProduct`; `id` 0 stands for a missing id. */
  function SingleProduct(s: Store, id: int): (o: Outcome<Option<ProductView>>)
    ensures o.store == s && o.reply.Reply?
    ensures id == 0 <==> o.reply == Reply(400, false)
    ensures id != 0 ==> (o.reply == Reply(404, false) <==> forall j :: 0 <= j < |s.products| ==> s.products[j].id != id)
    ensures o.reply.success <==> o.body.Some?
    ensures o.body.Some? ==> exists j :: 0 <= j < |s.products| && s.products[j].id == id && o.body.value == View(s.products[j])
  {
    if id == 0 then Outcome(Reply(400, false), s, None)
    else
      match ProductIndex(s, id)
      case None => Outcome(Reply(404, false), s, None)
      case Some(j) => Outcome(Ok, s, Some(View(s.products[j])))
  }

  // ---------------------------------------------------------------------------
  // removeProduct
  // ---------------------------------------------------------------------------

  /** No two product rows share an id. */
  ghost predicate UniqueProductIds(s: Store)
  {
    forall i, j :: 0 <= i < j < |s.products| ==> s.products[i].id != s.products[j].id
  }

  /**
   `removeProduct`; `id` 0 stands for a missing id. Deleting an id the table
   does not hold throws outside any try/catch: nothing is answered.
   */
  function RemoveProduct(s: Store, id: int): (o: Outcome<Option<Product>>)
    ensures id == 0 ==> o == Outcome(Reply(400, false), s, None)
    ensures o.reply == Ok <==> id != 0 && exists j :: 0 <= j < |s.products| && s.products[j].id == id
    ensures id != 0 && o.reply != Ok ==> o.reply == NoReply
    ensures o.reply != Ok ==> o.store == s && o.body.None?
    ensures o.reply == Ok ==> (o.body.Some? && o.body.value.id == id
      && o.store == s.(products := o.store.products)
      && multiset(o.store.products) + multiset{o.body.value} == multiset(s.products))
  {
    if id == 0 then Outcome(Reply(400, false), s, None)
    else
      match ProductIndex(s, id)
      case None => Outcome(NoReply, s, None)
      case Some(j) =>
        var rest := Seqs.RemoveAt(s.products, j);
        assert s.products == rest[..j] + [s.products[j]] + rest[j..];
        assert rest == rest[..j] + rest[j..];
        Outcome(Ok, s.(products := rest), Some(s.products[j]))
  }

  /** After a removal the id is gone and every other product is still listed. */
  lemma RemoveProductLeavesOthers(s: Store, id: int)
    requires UniqueProductIds(s)
    requires RemoveProduct(s, id).reply == Ok
    ensures var after := RemoveProduct(s, id).store;
      (forall j :: 0 <= j < |after.products| ==> after.products[j].id != id)
      && (forall j :: 0 <= j < |s.products| && s.products[j].id != id ==> s.products[j] in after.products)
  {
    var after := RemoveProduct(s, id).store;
    var i := ProductIndex(s, id).value;
    forall j | 0 <= j < |after.products|
      ensures after.products[j].id != id
    {
      if j < i {
        assert after.products[j] == s.products[j];
      } else {
        assert after.products[j] == s.products[j + 1];
      }
    }
    forall j | 0 <= j < |s.products| && s.products[j].id != id
      ensures s.products[j] in after.products
    {
      if j < i {
        assert after.products[j] == s.products[j];
      } else {
        assert after.products[j - 1] == s.products[j];
      }
    }
  }

  // ---------------------------------------------------------------------------
  // updateProduct
  // ---------------------------------------------------------------------------

  /** `Boolean(x)` of a form field: false when absent or empty, true for any other text. */
  function Truthy(raw: Option<string>): (b: bool)
    ensures b <==> raw.Some? && |raw.value| > 0
  {
    raw.Some? && raw.value != ""
  }

  /**
   The update both versions of the handler make: the form's fields replace the
   stored ones, with the flag given; id, images and creation time stay.
   */
  function Edited(p: Product, form: ProductForm, sizes: seq<string>, flag: bool): (q: Product)
    ensures q.id == p.id && q.image == p.image && q.createdAt == p.createdAt
    ensures q.name == form.name && q.description == form.description && q.price == form.price
    ensures q.category == form.category && q.subCategory == form.subCategory
    ensures q.sizes == sizes && q.bestSeller == flag
  {
    p.(name := form.name, description := form.description, price := form.price, category := form.category,
       subCategory := form.subCategory, sizes := sizes, bestSeller := flag)
  }

  /**
   The shared shape of `updateProduct`, with the flag parser as a parameter:
   a missing id answers 400; an unparsable size list or an id the table does
   not hold throws inside the try and answers 500; otherwise the matching
   row, and only it, is rewritten.
   */
  function UpdateWith(s: Store, id: int, form: ProductForm, flag: Option<string> -> bool): (o: Outcome<Option<Product>>)
    ensures o.reply.Reply?
    ensures id == 0 ==> o == Outcome(Reply(400, false), s, None)
    ensures id != 0 && ParseSizes(form.sizes).None? ==> o.reply == Reply(500, false)
    ensures id != 0 && (forall j :: 0 <= j < |s.products| ==> s.products[j].id != id) ==> o.reply == Reply(500, false)
    ensures !o.reply.success ==> o.store == s && o.body.None?
    ensures o.reply.success ==> (o.reply == Ok && o.body.Some? &&
      exists j :: 0 <= j < |s.products| && s.products[j].id == id
        && o.body.value == Edited(s.products[j], form, ParseSizes(form.sizes).value, flag(form.bestseller))
        && o.store == s.(products := s.products[j := o.body.value]))
  {
    if id == 0 then Outcome(Reply(400, false), s, None)
    else
      match ParseSizes(form.sizes)
      case None => Outcome(Reply(500, false), s, None)
      case Some(sizes) =>
        match ProductIndex(s, id)
        case None => Outcome(Reply(500, false), s, None)
        case Some(j) =>
          var q := Edited(s.products[j], form, sizes, flag(form.bestseller));
          Outcome(Ok, s.(products := s.products[j := q]), Some(q))
  }

  /** `updateProduct` as written: the flag is `Boolean(bestseller)`. */
  function UpdateProduct(s: Store, id: int, form: ProductForm): (o: Outcome<Option<Product>>)
    ensures o.reply.Reply?
    ensures id == 0 ==> o == Outcome(Reply(400, false), s, None)
    ensures !o.reply.success ==> o.store == s
    ensures o.reply.success ==> o.body.Some? && o.body.value.bestSeller == Truthy(form.bestseller)
  {
    UpdateWith(s, id, form, Truthy)
  }

  /** `updateProduct` with `addProduct`'s parser, which the edit page's "true"/"false" field needs. */
  function UpdateProductChecked(s: Store, id: int, form: ProductForm): (o: Outcome<Option<Product>>)
    ensures o.reply.Reply?
    ensures id == 0 ==> o == Outcome(Reply(400, false), s, None)
    ensures !o.reply.success ==> o.store == s
    ensures o.reply.success ==> o.body.Some? && (o.body.value.bestSeller <==> form.bestseller == Some("true"))
  {
    UpdateWith(s, id, form, AddFlag)
  }

  /** An update rewrites one row: the others, and the row's id, images and creation time, stay. */
  lemma UpdateProductFrame(s: Store, id: int, form: ProductForm, k: nat)
    requires UpdateProduct(s, id, form).reply.success
    requires k < |s.products| && s.products[k].id != id
    ensures var after := UpdateProduct(s, id, form).store;
      |after.products| == |s.products| && after.products[k] == s.products[k]
      && after.users == s.users && after.carts == s.carts && after.orders == s.orders
  {
  }

  /**
   The two parsers disagree on the text "false": the form that creates a
   product with the flag off, sent as an update, turns the flag on.
   */
  lemma UpdateProductFalseIsTrue(s: Store, id: int, form: ProductForm, now: int, files: Files, upload: string -> Option<string>)
    requires form.bestseller == Some("false")
    requires UpdateProduct(s, id, form).reply.success
    ensures UpdateProduct(s, id, form).body.value.bestSeller
    ensures AddProduct(s, form, files, upload, now).reply.Reply? ==>
      !AddProduct(s, form, files, upload, now).body.value.bestSeller
  {
  }

  /** The corrected update agrees with `addProduct` on every flag text. */
  lemma UpdateProductCheckedAgrees(s: Store, id: int, form: ProductForm, now: int, files: Files, upload: string -> Option<string>)
    requires UpdateProductChecked(s, id, form).reply.success
    ensures AddProduct(s, form, files, upload, now).reply.Reply? ==>
      UpdateProductChecked(s, id, form).body.value.bestSeller
        == AddProduct(s, form, files, upload, now).body.value.bestSeller
  {
  }
}
