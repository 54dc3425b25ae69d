/** The product record, the replies and requests exchanged with the remote
    product collection, and the pure functions the page derives from its
    product list: the brand-filtered view, the brand list, the unticked
    subset with its copy text, and the list edits each request applies. */
module Products {
  import opened ArrayOps
  import opened StringSort

  /** One product as the remote collection stores it. Ids are strings: the
      page reads them back from the `data-id` attribute of a product card. */
  datatype Product = Product(id: string, name: string, brand: string, checked: bool)

  datatype Option<T> = None | Some(value: T)

  /** How a request to the remote collection settled: with its parsed JSON
      body, or with a rejected promise (network failure or unparsable body). */
  datatype Reply<T> = Ok(value: T) | Failed

  /** The JSON body of an update. */
  datatype Patch = Fields(name: string, brand: string) | CheckedOnly(checked: bool)

  /** A request sent to the remote collection. */
  datatype Request =
    | ListAll
    | Create(name: string, brand: string)
    | Update(id: string, patch: Patch)
    | Delete(id: string)

  /** What the unticked-products modal shows. */
  datatype Panel = NoneFound | Entries(lines: seq<string>)

  /** No two records share an id. */
  predicate UniqueIds(ps: seq<Product>) {
    forall i, j :: 0 <= i < j < |ps| ==> ps[i].id != ps[j].id
  }

  // ---------------------------------------------------------------- views

  /** The test `p => p.brand === selectedBrand` of the brand filter. */
  function HasBrand(brand: string): Product -> bool {
    (p: Product) => p.brand == brand
  }

  /** The test `p => p.id !== id` that delete keeps. */
  function OtherId(id: string): Product -> bool {
    (p: Product) => p.id != id
  }

  /** The test `p => !p.checked` of the unticked subset. */
  predicate IsUnticked(p: Product) {
    !p.checked
  }

  /** The products shown for the brand filter `selectedBrand`; the empty
      string is the "all products" option. */
  function FilteredProducts(ps: seq<Product>, selectedBrand: string): (r: seq<Product>)
    ensures selectedBrand == "" ==> r == ps
    ensures selectedBrand != "" ==> forall p :: p in r <==> p in ps && p.brand == selectedBrand
    ensures |r| <= |ps|
  {
    if selectedBrand == "" then ps else Filter(ps, HasBrand(selectedBrand))
  }

  /** The filtered view holds each product of the chosen brand exactly as
      many times as the list does, and nothing else. */
  lemma FilteredCount(ps: seq<Product>, selectedBrand: string, p: Product)
    ensures multiset(FilteredProducts(ps, selectedBrand))[p]
         == if selectedBrand == "" || p.brand == selectedBrand then multiset(ps)[p] else 0
  {
    if selectedBrand != "" {
      FilterCount(ps, HasBrand(selectedBrand), p);
    }
  }

  /** Filtering keeps relative order: the view of a concatenation is the
      concatenation of the views. */
  lemma FilteredAppend(a: seq<Product>, b: seq<Product>, selectedBrand: string)
    ensures FilteredProducts(a + b, selectedBrand)
         == FilteredProducts(a, selectedBrand) + FilteredProducts(b, selectedBrand)
  {
    if selectedBrand != "" {
      FilterAppend(a, b, HasBrand(selectedBrand));
    }
  }

  /** Applying the same brand filter to the view changes nothing. */
  lemma FilteredIdempotent(ps: seq<Product>, selectedBrand: string)
    ensures FilteredProducts(FilteredProducts(ps, selectedBrand), selectedBrand)
         == FilteredProducts(ps, selectedBrand)
  {
    if selectedBrand != "" {
      FilterIdempotent(ps, HasBrand(selectedBrand));
    }
  }

  /** The `p => p.brand` that the brand list maps with. */
  function BrandOf(p: Product): string {
    p.brand
  }

  /** A brand occurs in the mapped list exactly when some product has it. */
  lemma BrandsOfProducts(ps: seq<Product>)
    ensures forall b :: b in Map(ps, BrandOf) <==> exists i :: 0 <= i < |ps| && ps[i].brand == b
    ensures forall i :: 0 <= i < |ps| ==> ps[i].brand in Map(ps, BrandOf)
  {
    var all := Map(ps, BrandOf);
    forall b | b in all ensures exists i :: 0 <= i < |ps| && ps[i].brand == b {
      var i :| 0 <= i < |all| && all[i] == b;
      assert ps[i].brand == b;
    }
    forall i | 0 <= i < |ps| ensures ps[i].brand in all {
      assert all[i] == ps[i].brand;
    }
  }

  /** The brand options: every brand in the list, once each, ascending. */
  function Brands(ps: seq<Product>): (r: seq<string>)
    ensures StrictlyAscending(r)
    ensures forall i :: 0 <= i < |ps| ==> ps[i].brand in r
    ensures forall b :: b in r ==> exists i :: 0 <= i < |ps| && ps[i].brand == b
  {
    var u := Unique(Map(ps, BrandOf));
    var r := Sort(u);
    SortSorted(u);
    SortDistinct(u);
    SortedDistinctAscending(r);
    BrandsOfProducts(ps);
    SortKeepsMembers(u);
    r
  }

  /** The products of `view` whose box is not ticked. */
  function Unticked(view: seq<Product>): (r: seq<Product>)
    ensures forall p :: p in r <==> p in view && !p.checked
  {
    Filter(view, IsUnticked)
  }

  /** Taking the unticked products of the unticked products changes nothing. */
  lemma UntickedIdempotent(view: seq<Product>)
    ensures Unticked(Unticked(view)) == Unticked(view)
  {
    FilterIdempotent(view, IsUnticked);
  }

  /** One entry of the unticked list: `name (brand)`. */
  function Label(p: Product): (r: string)
    ensures |r| == |p.name| + |p.brand| + 3
    ensures r[..|p.name|] == p.name && r[|p.name|..|p.name| + 2] == " ("
    ensures r[|p.name| + 2..|r| - 1] == p.brand && r[|r| - 1] == ')'
  {
    p.name + " (" + p.brand + ")"
  }

  /** The clipboard text: the labels of the unticked products of `view`,
      separated by `", "`; empty exactly when every product is ticked. */
  function CopyText(view: seq<Product>): (r: string)
    ensures r == "" <==> forall p :: p in view ==> p.checked
  {
    var u := Unticked(view);
    var labels := Map(u, Label);
    assert forall i :: 0 <= i < |labels| ==> |labels[i]| >= 3;
    assert u == [] <==> forall p :: p in view ==> p.checked by {
      if u != [] { assert u[0] in u; }
    }
    Join(labels, ", ")
  }

  /** Labelling distributes over concatenation. */
  lemma MapAppend(a: seq<Product>, b: seq<Product>)
    ensures Map(a + b, Label) == Map(a, Label) + Map(b, Label)
  {
    var l, r := Map(a + b, Label), Map(a, Label) + Map(b, Label);
    assert |l| == |r|;
    forall i | 0 <= i < |l| ensures l[i] == r[i] {
      if i < |a| { assert (a + b)[i] == a[i]; } else { assert (a + b)[i] == b[i - |a|]; }
    }
  }

  /** The copy text keeps list order: the text for a concatenation is the
      text of the first part, `", "`, then the text of the second. */
  lemma CopyTextAppend(a: seq<Product>, b: seq<Product>)
    requires !(forall p :: p in a ==> p.checked)
    requires !(forall p :: p in b ==> p.checked)
    ensures CopyText(a + b) == CopyText(a) + ", " + CopyText(b)
  {
    FilterAppend(a, b, IsUnticked);
    assert Unticked(a + b) == Unticked(a) + Unticked(b);
    MapAppend(Unticked(a), Unticked(b));
    var ua :| ua in a && !ua.checked;
    var ub :| ub in b && !ub.checked;
    assert ua in Unticked(a) && ub in Unticked(b);
    JoinAppend(Map(Unticked(a), Label), Map(Unticked(b), Label), ", ");
  }

  /** A list with every box ticked has no unticked products. */
  lemma {:induction false} AllTickedNoneUnticked(view: seq<Product>)
    requires forall p :: p in view ==> p.checked
    ensures Unticked(view) == []
  {
    if view != [] {
      assert view[0] in view;
      assert forall p :: p in view[1..] ==> p in view;
      AllTickedNoneUnticked(view[1..]);
    }
  }

  /** A leading part with every box ticked adds nothing to the copy text. */
  lemma CopyTextTickedPrefix(a: seq<Product>, b: seq<Product>)
    requires forall p :: p in a ==> p.checked
    ensures CopyText(a + b) == CopyText(b)
  {
    FilterAppend(a, b, IsUnticked);
    AllTickedNoneUnticked(a);
    assert Unticked(a + b) == Unticked(b);
  }

  /** A trailing part with every box ticked adds nothing to the copy text. */
  lemma CopyTextTickedSuffix(a: seq<Product>, b: seq<Product>)
    requires forall p :: p in b ==> p.checked
    ensures CopyText(a + b) == CopyText(a)
  {
    FilterAppend(a, b, IsUnticked);
    AllTickedNoneUnticked(b);
    assert Unticked(a + b) == Unticked(a);
  }

  /** The unticked modal: the empty-state message when every product in
      `view` is ticked, otherwise one line per unticked product, the same
      lines the copy text holds. */
  function UntickedPanel(view: seq<Product>): (r: Panel)
    ensures r.NoneFound? <==> forall p :: p in view ==> p.checked
    ensures r.Entries? ==> |r.lines| == |Unticked(view)| && Join(r.lines, ", ") == CopyText(view)
    ensures r.Entries? ==> forall k :: 0 <= k < |r.lines| ==> r.lines[k] == Label(Unticked(view)[k])
  {
    var u := Unticked(view);
    assert u == [] <==> forall p :: p in view ==> p.checked by {
      if u != [] { assert u[0] in u; }
    }
    if u == [] then NoneFound else Entries(Map(u, Label))
  }

  // ----------------------------------------------------------- list edits

  /** `findIndex(p => p.id === id)`: the position of the first record with
      that id, or -1 when there is none. */
  function IndexOfId(ps: seq<Product>, id: string): (r: int)
    ensures -1 <= r < |ps|
    ensures r == -1 <==> forall k :: 0 <= k < |ps| ==> ps[k].id != id
    ensures r != -1 ==> ps[r].id == id && forall k :: 0 <= k < r ==> ps[k].id != id
  {
    if ps == [] then -1
    else if ps[0].id == id then 0
    else
      var i := IndexOfId(ps[1..], id);
      if i == -1 then -1 else i + 1
  }

  /** `find(p => p.id === id)`: the first record with that id. */
  function Find(ps: seq<Product>, id: string): (r: Option<Product>)
    ensures r.None? <==> forall k :: 0 <= k < |ps| ==> ps[k].id != id
    ensures r.Some? ==> r.value in ps && r.value.id == id
    ensures r.Some? ==>
      exists i :: 0 <= i < |ps| && ps[i] == r.value && forall k :: 0 <= k < i ==> ps[k].id != id
  {
    var i := IndexOfId(ps, id);
    if i == -1 then None
    else
      assert forall k :: 0 <= k < i ==> ps[k].id != id;
      Some(ps[i])
  }

  /** The edit an update reply makes: the first record with the id is
      replaced by the returned record; with no such record nothing changes. */
  function ReplaceFirst(ps: seq<Product>, id: string, rec: Product): (r: seq<Product>)
    ensures |r| == |ps|
    ensures IndexOfId(ps, id) == -1 ==> r == ps
    ensures IndexOfId(ps, id) != -1 ==>
      r[IndexOfId(ps, id)] == rec &&
      forall k :: 0 <= k < |ps| && k != IndexOfId(ps, id) ==> r[k] == ps[k]
  {
    var i := IndexOfId(ps, id);
    if i == -1 then ps else ps[i := rec]
  }

  /** The edit a delete makes: every record with the id is dropped. */
  function WithoutId(ps: seq<Product>, id: string): (r: seq<Product>)
    ensures forall p :: p in r <==> p in ps && p.id != id
    ensures Find(r, id).None?
  {
    var r := Filter(ps, OtherId(id));
    assert forall k :: 0 <= k < |r| ==> r[k] in r;
    r
  }

  /** Deleting keeps the other records in their relative order. */
  lemma WithoutIdAppend(a: seq<Product>, b: seq<Product>, id: string)
    ensures WithoutId(a + b, id) == WithoutId(a, id) + WithoutId(b, id)
  {
    FilterAppend(a, b, OtherId(id));
  }

  /** Deleting removes every copy of the records with the id and keeps every
      other record as often as it occurred. */
  lemma WithoutIdCount(ps: seq<Product>, id: string, p: Product)
    ensures multiset(WithoutId(ps, id))[p] == if p.id == id then 0 else multiset(ps)[p]
  {
    FilterCount(ps, OtherId(id), p);
  }

  /** An update reply that carries the requested id, on a list with one
      record per id, keeps one record per id; looking the id up afterwards
      finds the returned record, and every other id finds what it found before. */
  lemma ReplaceThenFind(ps: seq<Product>, id: string, rec: Product, other: string)
    requires UniqueIds(ps) && rec.id == id
    ensures UniqueIds(ReplaceFirst(ps, id, rec))
    ensures Find(ReplaceFirst(ps, id, rec), id) == if Find(ps, id).Some? then Some(rec) else None
    ensures other != id ==> Find(ReplaceFirst(ps, id, rec), other) == Find(ps, other)
  {
    var i := IndexOfId(ps, id);
    var r := ReplaceFirst(ps, id, rec);
    if i != -1 {
      assert IndexOfId(r, id) == i;
      if other != id {
        var j := IndexOfId(ps, other);
        assert IndexOfId(r, other) == j;
      }
    }
  }

  /** A created record whose id is new keeps one record per id, and looking
      it up finds it; every other id finds what it found before. */
  lemma AppendThenFind(ps: seq<Product>, rec: Product, other: string)
    requires UniqueIds(ps) && Find(ps, rec.id).None?
    ensures UniqueIds(ps + [rec])
    ensures Find(ps + [rec], rec.id) == Some(rec)
    ensures other != rec.id ==> Find(ps + [rec], other) == Find(ps, other)
  {
    var r := ps + [rec];
    assert forall k :: 0 <= k < |ps| ==> r[k] == ps[k];
    assert r[|ps|] == rec;
    assert forall k :: 0 <= k < |ps| ==> r[k].id != rec.id;
    assert IndexOfId(r, rec.id) == |ps|;
    if other != rec.id {
      assert IndexOfId(r, other) == IndexOfId(ps, other);
    }
  }

  /** Deleting an id from a list with one record per id keeps one record per id. */
  lemma {:induction false} RemoveKeepsUniqueIds(ps: seq<Product>, id: string)
    requires UniqueIds(ps)
    ensures UniqueIds(WithoutId(ps, id))
  {
    if ps != [] {
      var rest := ps[1..];
      assert ps == [ps[0]] + rest;
      RemoveKeepsUniqueIds(rest, id);
      WithoutIdAppend([ps[0]], rest, id);
      var r, tail := WithoutId(ps, id), WithoutId(rest, id);
      if ps[0].id != id {
        assert r == [ps[0]] + tail;
        forall j | 0 <= j < |tail| ensures tail[j].id != ps[0].id {
          assert tail[j] in rest;
        }
        ConsKeepsUniqueIds(ps[0], tail);
      } else {
        assert r == tail;
      }
    }
  }

  /** A record whose id no record of `tail` has keeps ids unique in front of it. */
  lemma ConsKeepsUniqueIds(x: Product, tail: seq<Product>)
    requires UniqueIds(tail)
    requires forall j :: 0 <= j < |tail| ==> tail[j].id != x.id
    ensures UniqueIds([x] + tail)
  {
    var r := [x] + tail;
    assert forall j :: 0 < j < |r| ==> r[j] == tail[j - 1];
  }

  /** After deleting an id, every other id finds what it found before. */
  lemma {:induction false} RemoveThenFind(ps: seq<Product>, id: string, other: string)
    requires other != id
    ensures Find(WithoutId(ps, id), other) == Find(ps, other)
  {
    if ps != [] {
      var rest := ps[1..];
      assert ps == [ps[0]] + rest;
      RemoveThenFind(rest, id, other);
      WithoutIdAppend([ps[0]], rest, id);
      var r, tail := WithoutId(ps, id), WithoutId(rest, id);
      if ps[0].id != id {
        assert r == [ps[0]] + tail;
        assert r[1..] == tail;
      } else {
        assert r == tail;
      }
    }
  }

  /** The list after one update request settles. */
  function ApplyReply(ps: seq<Product>, id: string, reply: Reply<Product>): (r: seq<Product>)
    ensures |r| == |ps|
    ensures reply.Failed? ==> r == ps
  {
    if reply.Ok? then ReplaceFirst(ps, id, reply.value) else ps
  }

  /** The list after update requests for `ids` settle one after another, in
      order, with `replies`. */
  function ApplyAll(ps: seq<Product>, ids: seq<string>, replies: seq<Reply<Product>>): (r: seq<Product>)
    requires |ids| == |replies|
    ensures |r| == |ps|
    decreases |ids|
  {
    if ids == [] then ps
    else
      var n := |ids| - 1;
      ApplyReply(ApplyAll(ps, ids[..n], replies[..n]), ids[n], replies[n])
  }

  /** One more reply settling extends the prefix by one request. */
  lemma ApplyAllStep(ps: seq<Product>, ids: seq<string>, replies: seq<Reply<Product>>, i: nat)
    requires |ids| == |replies| && i < |ids|
    ensures ApplyAll(ps, ids[..i + 1], replies[..i + 1])
         == ApplyReply(ApplyAll(ps, ids[..i], replies[..i]), ids[i], replies[i])
  {
    assert ids[..i + 1][..i] == ids[..i];
    assert replies[..i + 1][..i] == replies[..i];
  }

  function IdOf(p: Product): string {
    p.id
  }

  /** The ids of the records, in list order. */
  function Ids(ps: seq<Product>): (r: seq<string>)
    ensures |r| == |ps| && forall k :: 0 <= k < |ps| ==> r[k] == ps[k].id
  {
    Map(ps, IdOf)
  }

  /** Every request succeeded: the joined wait resolves. */
  predicate AllOk(replies: seq<Reply<Product>>) {
    forall k :: 0 <= k < |replies| ==> replies[k].Ok?
  }

  /** Extending the handled replies by one: all succeeded exactly when
      the earlier ones did and the new one did. */
  lemma AllOkStep(replies: seq<Reply<Product>>, i: nat)
    requires i < |replies|
    ensures AllOk(replies[..i + 1]) <==> AllOk(replies[..i]) && replies[i].Ok?
  {
    assert replies[..i + 1] == replies[..i] + [replies[i]];
  }

  /** The request clear-all sends for one record. */
  function ClearRequest(id: string): Request {
    Update(id, CheckedOnly(false))
  }

  /** The requests clear-all sends: one `checked: false` update per record,
      in list order. */
  function ClearRequests(ps: seq<Product>): (r: seq<Request>)
    ensures |r| == |ps|
    ensures forall k :: 0 <= k < |ps| ==> r[k] == Update(ps[k].id, CheckedOnly(false))
  {
    Map(Ids(ps), ClearRequest)
  }

  /** Clearing all boxes on a list with one record per id, when each
      successful reply carries the id it was sent for: the first `n`
      records are the successful replies or, where the request failed,
      the records as they were; the rest are untouched. */
  lemma {:induction false} ClearPrefix(ps: seq<Product>, replies: seq<Reply<Product>>, n: nat)
    requires UniqueIds(ps) && |replies| == |ps| && n <= |ps|
    requires forall k :: 0 <= k < |ps| && replies[k].Ok? ==> replies[k].value.id == ps[k].id
    ensures forall k :: 0 <= k < |ps| ==>
      ApplyAll(ps, Ids(ps)[..n], replies[..n])[k]
        == if k < n && replies[k].Ok? then replies[k].value else ps[k]
  {
    if n > 0 {
      var m := n - 1;
      ClearPrefix(ps, replies, m);
      assert Ids(ps)[..n][..m] == Ids(ps)[..m];
      assert replies[..n][..m] == replies[..m];
      var before := ApplyAll(ps, Ids(ps)[..m], replies[..m]);
      assert before[m] == ps[m];
      forall k | 0 <= k < m ensures before[k].id != ps[m].id {
        assert before[k].id == ps[k].id;
      }
      assert IndexOfId(before, ps[m].id) == m;
    }
  }

  /** Clear-all keeps the outcome of each request separately: a record
      whose request succeeded becomes the server's reply, and a record
      whose request failed keeps its previous state. */
  lemma ClearAllPerItem(ps: seq<Product>, replies: seq<Reply<Product>>)
    requires UniqueIds(ps) && |replies| == |ps|
    requires forall k :: 0 <= k < |ps| && replies[k].Ok? ==> replies[k].value.id == ps[k].id
    ensures forall k :: 0 <= k < |ps| ==>
      ApplyAll(ps, Ids(ps), replies)[k] == if replies[k].Ok? then replies[k].value else ps[k]
  {
    ClearPrefix(ps, replies, |ps|);
    assert Ids(ps)[..|ps|] == Ids(ps);
    assert replies[..|ps|] == replies;
  }

  /** Two products of brands X and Y, the second one ticked. */
  function TwoBrands(): seq<Product> {
    [Product("1", "name1", "X", false), Product("2", "name2", "Y", true)]
  }

  /** Their brand list is X then Y. */
  lemma TwoBrandsList()
    ensures Brands(TwoBrands()) == ["X", "Y"]
  {
    var ps := TwoBrands();
    assert Map(ps, BrandOf) == ["X", "Y"];
    assert Unique(["X", "Y"]) == ["X", "Y"];
    assert Less("X", "Y");
    assert Sort(["X", "Y"]) == ["X", "Y"];
  }

  /** Filtering on Y shows the second product only. */
  lemma TwoBrandsFilter()
    ensures FilteredProducts(TwoBrands(), "Y") == [TwoBrands()[1]]
  {
    var ps := TwoBrands();
    assert Filter(ps, HasBrand("Y")) == [ps[1]];
  }

  /** The copy text of the unfiltered list names the first product only. */
  lemma TwoBrandsCopy()
    ensures CopyText(FilteredProducts(TwoBrands(), "")) == "name1 (X)"
  {
    var ps := TwoBrands();
    assert Unticked(ps) == [ps[0]];
    assert Label(ps[0]) == "name1 (X)";
    assert Map([ps[0]], Label) == ["name1 (X)"];
  }
}
