/**
 The admin panel's product edit page: the state updaters of its form and the
 mapping of a fetched product into the form. Each updater is the function
 React applies to the previous state.
 */
module EditPage {
  import opened Wrappers
  import Seqs
  import Db
  import Products

  // ---------------------------------------------------------------------------
  // Form state
  // ---------------------------------------------------------------------------

  /** A form field's value: input text, a checkbox, a number from the server, or the size list. */
  datatype Value = Text(text: string) | Flag(flag: bool) | Number(n: int) | Sizes(list: seq<string>)

  /** The form state, by field name. */
  type Form = map<string, Value>

  /** The form before any product is loaded. */
  function InitialForm(): (f: Form)
    ensures f.Keys == {"name", "description", "price", "category", "subCategory", "bestseller", "sizes"}
    ensures f["sizes"] == Sizes([]) && f["bestseller"] == Flag(false)
  {
    map["name" := Text(""), "description" := Text(""), "price" := Text(""), "category" := Text("Men"),
        "subCategory" := Text("Football kits"), "bestseller" := Flag(false), "sizes" := Sizes([])]
  }

  // ---------------------------------------------------------------------------
  // fetchProductById
  // ---------------------------------------------------------------------------

  /** The product as the page receives it; `sizes` is `None` when the reply carries none. */
  datatype FetchedProduct = FetchedProduct(
    id: int,
    name: string,
    description: string,
    price: int,
    category: string,
    subCategory: string,
    bestSeller: bool,
    sizes: Option<seq<string>>)

  /** How the product request ended: a product, a refusal with a message, or a thrown error. */
  datatype FetchResponse = Fetched(product: FetchedProduct) | Refused(message: string) | Failed

  /** The form filled from a fetched product, the size list defaulting to the empty list. */
  function FormOf(p: FetchedProduct): (f: Form)
    ensures f.Keys == InitialForm().Keys
    ensures f["name"] == Text(p.name) && f["description"] == Text(p.description)
    ensures f["price"] == Number(p.price) && f["category"] == Text(p.category)
    ensures f["subCategory"] == Text(p.subCategory) && f["bestseller"] == Flag(p.bestSeller)
    ensures f["sizes"] == Sizes(p.sizes.GetOr([]))
  {
    map["name" := Text(p.name), "description" := Text(p.description), "price" := Number(p.price),
        "category" := Text(p.category), "subCategory" := Text(p.subCategory),
        "bestseller" := Flag(p.bestSeller), "sizes" := Sizes(p.sizes.GetOr([]))]
  }

  /**
   The form after `fetchProductById`: refilled from the product when one came
   back; otherwise left as it was (the page shows an error and navigates away).
   */
  function FetchProduct(form: Form, response: FetchResponse): (r: Form)
    ensures !response.Fetched? ==> r == form
    ensures response.Fetched? ==> r == FormOf(response.product) && r.Keys == InitialForm().Keys
    ensures response.Fetched? && response.product.sizes.None? ==> r["sizes"] == Sizes([])
  {
    match response
    case Fetched(p) => FormOf(p)
    case _ => form
  }

  /** What the page reads from `singleProduct`'s answer. */
  function Received(v: Products.ProductView): (p: FetchedProduct)
    ensures p.id == v.id && p.sizes == Some(v.sizes) && p.bestSeller == v.bestSeller
  {
    FetchedProduct(v.id, v.name, v.description, v.price, v.category, v.subCategory, v.bestSeller, Some(v.sizes))
  }

  /** Loading a stored product into the form shows its stored sizes and flag. */
  lemma FetchShowsStoredProduct(s: Db.Store, id: int, form: Form)
    requires Products.SingleProduct(s, id).body.Some?
    ensures var r := FetchProduct(form, Fetched(Received(Products.SingleProduct(s, id).body.value)));
      exists j :: 0 <= j < |s.products| && s.products[j].id == id
        && r["sizes"] == Sizes(s.products[j].sizes) && r["bestseller"] == Flag(s.products[j].bestSeller)
  {
  }

  // ---------------------------------------------------------------------------
  // handleInputChange
  // ---------------------------------------------------------------------------

  /** The kind of input that fired the change. */
  datatype InputKind = Checkbox | OtherInput

  /** The named field takes the checkbox state or the input text. */
  function HandleInputChange(form: Form, name: string, kind: InputKind, value: string, checked: bool): (r: Form)
    ensures r.Keys == form.Keys + {name}
    ensures r[name] == (if kind == Checkbox then Flag(checked) else Text(value))
    ensures forall k :: k in form && k != name ==> r[k] == form[k]
  {
    form[name := if kind == Checkbox then Flag(checked) else Text(value)]
  }

  /** A second change to the same field overrides the first. */
  lemma InputChangeLastWins(form: Form, name: string, k1: InputKind, v1: string, c1: bool, k2: InputKind, v2: string, c2: bool)
    ensures HandleInputChange(HandleInputChange(form, name, k1, v1, c1), name, k2, v2, c2)
      == HandleInputChange(form, name, k2, v2, c2)
  {
  }

  /** Changes to two different fields commute. */
  lemma InputChangesCommute(form: Form, a: string, ka: InputKind, va: string, ca: bool, b: string, kb: InputKind, vb: string, cb: bool)
    requires a != b
    ensures HandleInputChange(HandleInputChange(form, a, ka, va, ca), b, kb, vb, cb)
      == HandleInputChange(HandleInputChange(form, b, kb, vb, cb), a, ka, va, ca)
  {
  }

  // ---------------------------------------------------------------------------
  // handleImageChange
  // ---------------------------------------------------------------------------

  /** The newly chosen image per slot, `None` while none is chosen. */
  type Images = map<string, Option<string>>

  /** The slots before any image is chosen. */
  function InitialImages(): (m: Images)
    ensures m.Keys == {"image1", "image2", "image3", "image4", "image5"}
    ensures forall k :: k in m ==> m[k].None?
  {
    map["image1" := None, "image2" := None, "image3" := None, "image4" := None, "image5" := None]
  }

  /**
   The slot named by the input takes the first chosen file; without a file
   list, or with an empty one, nothing changes.
   */
  function HandleImageChange(images: Images, name: string, files: Option<seq<string>>): (r: Images)
    ensures files.None? || |files.value| == 0 ==> r == images
    ensures files.Some? && |files.value| > 0 ==> r.Keys == images.Keys + {name} && r[name] == Some(files.value[0])
    ensures forall k :: k in images && k != name ==> r[k] == images[k]
  {
    if files.Some? && |files.value| > 0 then images[name := Some(files.value[0])] else images
  }

  // ---------------------------------------------------------------------------
  // toggleSize
  // ---------------------------------------------------------------------------

  /** The condition `s !== size` of the removal filter. */
  function Differs(size: string): string -> bool
  {
    (s: string) => s != size
  }

  /** `includes(size)` removes every copy; otherwise `size` is appended. */
  function ToggleSize(sizes: seq<string>, size: string): (r: seq<string>)
    ensures size in r <==> size !in sizes
    ensures forall x :: x != size ==> (x in r <==> x in sizes)
  {
    if size in sizes then Seqs.Filter(sizes, Differs(size)) else sizes + [size]
  }

  /** The sizes other than the toggled one keep their order. */
  lemma ToggleKeepsOthersInOrder(sizes: seq<string>, size: string)
    ensures Seqs.Filter(ToggleSize(sizes, size), Differs(size)) == Seqs.Filter(sizes, Differs(size))
  {
    if size in sizes {
      Seqs.FilterIdempotent(sizes, Differs(size));
    } else {
      var r := sizes + [size];
      assert r[..|r| - 1] == sizes;
    }
  }

  /** No size is listed twice. */
  ghost predicate Distinct(s: seq<string>)
  {
    forall i, j :: 0 <= i < j < |s| ==> s[i] != s[j]
  }

  /** Filtering a list without repeats leaves none. */
  lemma {:induction false} FilterDistinct(s: seq<string>, p: string -> bool)
    requires Distinct(s)
    ensures Distinct(Seqs.Filter(s, p))
    decreases |s|
  {
    if |s| > 0 {
      var init := s[..|s| - 1];
      FilterDistinct(init, p);
      var f := Seqs.Filter(init, p);
      var last := s[|s| - 1];
      assert last !in init by {
        forall i | 0 <= i < |init|
          ensures init[i] != last
        {
          assert init[i] == s[i];
        }
      }
      if p(last) {
        var r := f + [last];
        assert Seqs.Filter(s, p) == r;
        forall i, j | 0 <= i < j < |r|
          ensures r[i] != r[j]
        {
          if j == |r| - 1 {
            assert r[i] == f[i] && f[i] in init;
          } else {
            assert r[i] == f[i] && r[j] == f[j];
          }
        }
      }
    }
  }

  /** Toggling keeps a list free of repeats. */
  lemma ToggleKeepsDistinct(sizes: seq<string>, size: string)
    requires Distinct(sizes)
    ensures Distinct(ToggleSize(sizes, size))
  {
    if size in sizes {
      FilterDistinct(sizes, Differs(size));
    }
  }

  /** Toggling an absent size twice restores the list. */
  lemma ToggleAbsentTwice(sizes: seq<string>, size: string)
    requires size !in sizes
    ensures ToggleSize(ToggleSize(sizes, size), size) == sizes
  {
    var r := sizes + [size];
    assert r[..|r| - 1] == sizes;
    Seqs.FilterAll(sizes, Differs(size));
  }

  /** Toggling a present size twice moves it, once, to the end of the others. */
  lemma TogglePresentTwice(sizes: seq<string>, size: string)
    requires size in sizes
    ensures ToggleSize(ToggleSize(sizes, size), size) == Seqs.Filter(sizes, Differs(size)) + [size]
  {
  }

  /**
   `toggleSize` applied to the form: `None` where the size field holds no list
   and `includes` throws; otherwise only the size list changes.
   */
  function ToggleFormSize(form: Form, size: string): (r: Option<Form>)
    ensures r.Some? <==> "sizes" in form && form["sizes"].Sizes?
    ensures r.Some? ==> r.value == form["sizes" := Sizes(ToggleSize(form["sizes"].list, size))]
  {
    if "sizes" in form && form["sizes"].Sizes? then Some(form["sizes" := Sizes(ToggleSize(form["sizes"].list, size))])
    else None
  }

  /** The form's size field holds a list. */
  predicate HoldsSizeList(form: Form)
  {
    "sizes" in form && form["sizes"].Sizes?
  }

  /**
   Every form the page builds holds a size list: the initial form, a fetched
   product's form, and the forms its updaters produce, since no input is
   named "sizes". So `toggleSize` always finds a list there.
   */
  lemma FormKeepsSizeList(form: Form, response: FetchResponse, name: string, kind: InputKind, value: string,
                          checked: bool, size: string)
    requires HoldsSizeList(form)
    requires name != "sizes"
    ensures HoldsSizeList(InitialForm())
    ensures HoldsSizeList(FetchProduct(form, response))
    ensures HoldsSizeList(HandleInputChange(form, name, kind, value, checked))
    ensures ToggleFormSize(form, size).Some? && HoldsSizeList(ToggleFormSize(form, size).value)
  {
  }

  // ---------------------------------------------------------------------------
  // The flag the page submits
  // ---------------------------------------------------------------------------

  /** `Boolean(v)` of a form value. */
  function ValueTruthy(v: Value): bool
  {
    match v
    case Text(t) => t != ""
    case Flag(b) => b
    case Number(n) => n != 0
    case Sizes(_) => true
  }

  /**
   The `bestseller` text the page sends: `Boolean(formData.bestseller)`,
   which the multipart body carries as "true" or "false".
   */
  function SubmittedFlag(form: Form): (t: string)
    ensures t == "true" || t == "false"
    ensures "bestseller" in form && form["bestseller"].Flag? ==> (t == "true" <==> form["bestseller"].flag)
  {
    if "bestseller" in form && ValueTruthy(form["bestseller"]) then "true" else "false"
  }

  /**
   Clearing the checkbox and saving leaves the product a bestseller under the
   handler as written; the corrected handler stores the checkbox as shown.
   */
  lemma ClearedCheckboxKeepsBestseller(s: Db.Store, id: int, before: Form, fields: Products.ProductForm)
    requires fields.bestseller == Some(SubmittedFlag(HandleInputChange(before, "bestseller", Checkbox, "", false)))
    requires Products.UpdateProduct(s, id, fields).reply.success
    ensures fields.bestseller == Some("false")
    ensures Products.UpdateProduct(s, id, fields).body.value.bestSeller
    ensures Products.UpdateProductChecked(s, id, fields).reply.success
    ensures !Products.UpdateProductChecked(s, id, fields).body.value.bestSeller
  {
  }
}
