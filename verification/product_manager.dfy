/** The page's mutable state and the handlers that change it. Every network
    call is replaced by its outcome, passed in as a parameter, and each
    handler returns the requests it would send, so that validation and
    routing can be stated. */
module ProductState {
  import opened ArrayOps
  import opened Products

  /** JavaScript truthiness of `currentProductId`: null and "" are falsy,
      every other string is truthy. */
  predicate Truthy(id: Option<string>): (b: bool)
    ensures id == None ==> !b
    ensures id == Some("") ==> !b
    ensures forall v :: id == Some(v) && |v| > 0 ==> b
  {
    id.Some? && id.value != ""
  }

  class ProductManager {
    /** The cached product list, in the order the server listed and created them. */
    var products: seq<Product>
    /** The id of the product being edited; None (null) while adding one. */
    var currentProductId: Option<string>
    /** The brand filter; "" shows all products. */
    var selectedBrand: string

    constructor ()
      ensures products == [] && currentProductId == None && selectedBrand == ""
    {
      products := [];
      currentProductId := None;
      selectedBrand := "";
    }

    /** The products on screen: `getFilteredProducts()` on the current state. */
    function View(): (r: seq<Product>)
      reads this
      ensures selectedBrand == "" ==> r == products
      ensures forall p :: p in r <==> p in products && (selectedBrand == "" || p.brand == selectedBrand)
    {
      FilteredProducts(products, selectedBrand)
    }

    // ------------------------------------------------- remote collection calls

    /** Loads the whole list; on failure the old list stays and an error is shown. */
    method FetchProducts(reply: Reply<seq<Product>>) returns (request: Request, ok: bool)
      modifies this
      ensures request == ListAll
      ensures ok == reply.Ok?
      ensures products == if ok then reply.value else old(products)
      ensures currentProductId == old(currentProductId) && selectedBrand == old(selectedBrand)
    {
      request := ListAll;
      ok := reply.Ok?;
      if ok {
        products := reply.value;
      }
    }

    /** Appends the record the server created. */
    method CreateProduct(reply: Reply<Product>) returns (ok: bool)
      modifies this
      ensures ok == reply.Ok?
      ensures products == if ok then old(products) + [reply.value] else old(products)
      ensures currentProductId == old(currentProductId) && selectedBrand == old(selectedBrand)
    {
      ok := reply.Ok?;
      if ok {
        products := products + [reply.value];
      }
    }

    /** Puts the record the server returned in place of the first record
        with the id; leaves the list alone when there is none. */
    method UpdateProduct(id: string, reply: Reply<Product>) returns (ok: bool)
      modifies this
      ensures ok == reply.Ok?
      ensures products == ApplyReply(old(products), id, reply)
      ensures currentProductId == old(currentProductId) && selectedBrand == old(selectedBrand)
    {
      ok := reply.Ok?;
      if ok {
        var index := IndexOfId(products, id);
        if index != -1 {
          products := products[index := reply.value];
        }
      }
    }

    /** Drops every record with the id once `fetch` resolves; `resolved` is
        false when the request was rejected. */
    method DeleteProduct(id: string, resolved: bool) returns (ok: bool)
      modifies this
      ensures ok == resolved
      ensures products == if ok then WithoutId(old(products), id) else old(products)
      ensures currentProductId == old(currentProductId) && selectedBrand == old(selectedBrand)
    {
      ok := resolved;
      if ok {
        products := WithoutId(products, id);
      }
    }

    // ---------------------------------------------------------------- handlers

    /** Ticking or unticking a box sends the new value; when the request
        fails the box is set back to the value it had before the click and
        the list is left alone. `shown` is the value of the clicked element
        afterwards. A success that finds the id re-renders the grid from
        `products`, so the box then on screen shows the reply's `checked`,
        which is what `ApplyReply` stores. */
    method HandleCheckboxChange(productId: string, checked: bool, reply: Reply<Product>)
      returns (request: Request, shown: bool)
      modifies this
      ensures request == Update(productId, CheckedOnly(checked))
      ensures shown == if reply.Ok? then checked else !checked
      ensures products == ApplyReply(old(products), productId, reply)
      ensures reply.Failed? ==> products == old(products)
      ensures currentProductId == old(currentProductId) && selectedBrand == old(selectedBrand)
    {
      request := Update(productId, CheckedOnly(checked));
      var ok := UpdateProduct(productId, reply);
      shown := if ok then checked else !checked;
    }

    /** Opens the edit form for a listed product, filled with its name and
        brand (`form`); an id that is not listed does nothing. */
    method HandleEdit(productId: string) returns (form: Option<Product>)
      modifies this
      ensures form == Find(old(products), productId)
      ensures form.Some? ==> form.value.id == productId
      ensures currentProductId == if form.Some? then Some(productId) else old(currentProductId)
      ensures products == old(products) && selectedBrand == old(selectedBrand)
    {
      form := Find(products, productId);
      if form.Some? {
        currentProductId := Some(productId);
      }
    }

    /** The add button: the form that opens creates a new product. */
    method HandleAddProduct()
      modifies this
      ensures currentProductId == None
      ensures products == old(products) && selectedBrand == old(selectedBrand)
    {
      currentProductId := None;
    }

    /** Deleting asks for confirmation first; only a confirmed delete sends
        a request, and the list changes only once its `fetch` resolves. */
    method HandleDelete(productId: string, confirmed: bool, resolved: bool)
      returns (request: Option<Request>)
      modifies this
      ensures request == if confirmed then Some(Delete(productId)) else None
      ensures products == if confirmed && resolved then WithoutId(old(products), productId) else old(products)
      ensures currentProductId == old(currentProductId) && selectedBrand == old(selectedBrand)
    {
      request := None;
      if confirmed {
        request := Some(Delete(productId));
        var _ := DeleteProduct(productId, resolved);
      }
    }

    /** Saving the form: an empty name or brand is refused without any
        request; otherwise an edit in progress sends an update and anything
        else sends a create. A save that succeeds ends the edit. */
    method HandleSaveProduct(name: string, brand: string, reply: Reply<Product>)
      returns (request: Option<Request>, saved: bool)
      modifies this
      ensures name == "" || brand == "" ==> request == None
      ensures name != "" && brand != "" ==>
        request == Some(if Truthy(old(currentProductId))
                        then Update(old(currentProductId).value, Fields(name, brand))
                        else Create(name, brand))
      ensures saved <==> request.Some? && reply.Ok?
      ensures products ==
        if !saved then old(products)
        else if request.value.Update? then ReplaceFirst(old(products), request.value.id, reply.value)
        else old(products) + [reply.value]
      ensures currentProductId == if saved then None else old(currentProductId)
      ensures selectedBrand == old(selectedBrand)
    {
      request, saved := None, false;
      if brand == "" || name == "" {
        return;
      }
      if Truthy(currentProductId) {
        request := Some(Update(currentProductId.value, Fields(name, brand)));
        saved := UpdateProduct(currentProductId.value, reply);
      } else {
        request := Some(Create(name, brand));
        saved := CreateProduct(reply);
      }
      if saved {
        currentProductId := None;
      }
    }

    /** Choosing a brand in the filter. */
    method HandleBrandFilter(value: string)
      modifies this
      ensures selectedBrand == value
      ensures View() == FilteredProducts(old(products), value)
      ensures products == old(products) && currentProductId == old(currentProductId)
    {
      selectedBrand := value;
    }

    /** Clear-all: after confirmation, one `checked: false` update for every
        record in the list, whatever the brand filter, settling in the order
        they were sent. `failed` is whether the joined wait rejected. */
    method HandleClearAll(confirmed: bool, replies: seq<Reply<Product>>)
      returns (requests: seq<Request>, failed: bool)
      requires confirmed ==> |replies| == |products|
      modifies this
      ensures !confirmed ==> requests == [] && products == old(products)
      ensures confirmed ==>
        |requests| == |old(products)| &&
        forall k :: 0 <= k < |requests| ==> requests[k] == Update(old(products)[k].id, CheckedOnly(false))
      ensures confirmed ==> products == ApplyAll(old(products), Ids(old(products)), replies)
      ensures failed <==> confirmed && !AllOk(replies)
      ensures currentProductId == old(currentProductId) && selectedBrand == old(selectedBrand)
    {
      requests, failed := [], false;
      if !confirmed {
        return;
      }
      requests := ClearRequests(products);
      var ids := Ids(products);
      ghost var start := products;
      var i := 0;
      while i < |ids|
        invariant 0 <= i <= |ids| == |replies|
        invariant products == ApplyAll(start, ids[..i], replies[..i])
        invariant !failed <==> AllOk(replies[..i])
        invariant currentProductId == old(currentProductId) && selectedBrand == old(selectedBrand)
      {
        var ok := UpdateProduct(ids[i], replies[i]);
        failed := failed || !ok;
        AllOkStep(replies, i);
        ApplyAllStep(start, ids, replies, i);
        i := i + 1;
      }
      assert ids[..i] == ids;
      assert replies[..i] == replies;
    }

    /** The text the copy button puts on the clipboard. */
    method HandleCopyList() returns (text: string)
      ensures text == CopyText(View())
      ensures text == "" <==> forall p :: p in View() ==> p.checked
    {
      text := CopyText(View());
    }

    /** What the unticked-products modal shows when it is opened. */
    method HandleSaveChanges() returns (panel: Panel)
      ensures panel.NoneFound? <==> forall p :: p in View() ==> p.checked
      ensures panel.Entries? ==> |panel.lines| == |Unticked(View())|
      ensures panel.Entries? ==> forall k :: 0 <= k < |panel.lines| ==> panel.lines[k] == Label(Unticked(View())[k])
      ensures panel.Entries? ==> Join(panel.lines, ", ") == CopyText(View())
    {
      panel := UntickedPanel(View());
    }
  }
}
