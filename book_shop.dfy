/** The book-shop view: a shopping cart that merges repeated products into one line with a
    quantity, and a keyword search over the product names. */
module BookShop {
  import opened Sequences
  import opened Text

  /** A catalogue entry. Only the fields the cart and the search inspect are kept. */
  datatype Product = Product(id: int, name: string)

  /** One cart line: the product record it was created from and how many of it are ordered. */
  datatype CartItem = CartItem(product: Product, quantity: int)

  /** The checkout form. */
  datatype OrderForm = OrderForm(name: string, email: string, address: string)

  const EmptyOrderForm := OrderForm("", "", "")

  // ---------------------------------------------------------------------------------------
  // The cart
  // ---------------------------------------------------------------------------------------

  /** `items.findIndex(item => item.id === id)`: the first position holding `id`, or -1. */
  function IndexOf(items: seq<CartItem>, id: int): (index: int)
    ensures -1 <= index < |items|
    ensures index >= 0 ==> items[index].product.id == id
    ensures forall j :: 0 <= j < |items| && (index == -1 || j < index) ==> items[j].product.id != id
    decreases |items|
  {
    if items == [] then -1
    else if items[0].product.id == id then 0
    else
      var k := IndexOf(items[1..], id);
      if k == -1 then -1 else k + 1
  }

  /** The cart after `handleAddToCart(product)`. */
  function AddedToCart(items: seq<CartItem>, product: Product): seq<CartItem>
  {
    var index := IndexOf(items, product.id);
    if index > -1 then items[index := items[index].(quantity := items[index].quantity + 1)]
    else items + [CartItem(product, 1)]
  }

  /** The cart after `handleRemoveFromCart(product)`. */
  function RemovedFromCart(items: seq<CartItem>, product: Product): seq<CartItem>
  {
    var index := IndexOf(items, product.id);
    if index == -1 then items
    else if items[index].quantity > 1 then items[index := items[index].(quantity := items[index].quantity - 1)]
    else items[..index] + items[index + 1..]
  }

  /** No product appears on two lines. */
  predicate DistinctIds(items: seq<CartItem>)
  {
    forall i, j :: 0 <= i < j < |items| ==> items[i].product.id != items[j].product.id
  }

  /** Every line orders at least one copy. */
  predicate PositiveQuantities(items: seq<CartItem>)
  {
    forall i :: 0 <= i < |items| ==> items[i].quantity >= 1
  }

  /** The shape of every cart built from the empty cart by adding and removing. */
  predicate ValidCart(items: seq<CartItem>)
  {
    DistinctIds(items) && PositiveQuantities(items)
  }

  /** Total quantity ordered of product `id`, over all lines that carry it. */
  function QuantityOf(items: seq<CartItem>, id: int): int
    decreases |items|
  {
    if items == [] then 0
    else
      var last := items[|items| - 1];
      QuantityOf(items[..|items| - 1], id) + (if last.product.id == id then last.quantity else 0)
  }

  /** Adding a product that is not in the cart appends one line with quantity 1. */
  lemma AddAbsentAppends(items: seq<CartItem>, product: Product)
    requires forall j :: 0 <= j < |items| ==> items[j].product.id != product.id
    ensures AddedToCart(items, product) == items + [CartItem(product, 1)]
  {
  }

  /** Adding a product whose first line is at `i` bumps that line's quantity and leaves
      the length and every other line as they were. */
  lemma AddPresentIncrements(items: seq<CartItem>, product: Product, i: nat)
    requires i < |items| && items[i].product.id == product.id
    requires forall j :: 0 <= j < i ==> items[j].product.id != product.id
    ensures |AddedToCart(items, product)| == |items|
    ensures AddedToCart(items, product)[i] == CartItem(items[i].product, items[i].quantity + 1)
    ensures forall j :: 0 <= j < |items| && j != i ==> AddedToCart(items, product)[j] == items[j]
  {
    assert IndexOf(items, product.id) == i;
  }

  /** Removing a product that is not in the cart changes nothing. */
  lemma RemoveAbsentUnchanged(items: seq<CartItem>, product: Product)
    requires forall j :: 0 <= j < |items| ==> items[j].product.id != product.id
    ensures RemovedFromCart(items, product) == items
  {
  }

  /** Removing a product whose first line `i` orders more than one copy decrements it. */
  lemma RemoveDecrements(items: seq<CartItem>, product: Product, i: nat)
    requires i < |items| && items[i].product.id == product.id
    requires forall j :: 0 <= j < i ==> items[j].product.id != product.id
    requires items[i].quantity > 1
    ensures |RemovedFromCart(items, product)| == |items|
    ensures RemovedFromCart(items, product)[i] == CartItem(items[i].product, items[i].quantity - 1)
    ensures forall j :: 0 <= j < |items| && j != i ==> RemovedFromCart(items, product)[j] == items[j]
  {
    assert IndexOf(items, product.id) == i;
  }

  /** Removing a product whose first line `i` orders one copy (or fewer) deletes exactly
      that line; the others keep their order. */
  lemma RemoveDeletesLine(items: seq<CartItem>, product: Product, i: nat)
    requires i < |items| && items[i].product.id == product.id
    requires forall j :: 0 <= j < i ==> items[j].product.id != product.id
    requires items[i].quantity <= 1
    ensures RemovedFromCart(items, product) == items[..i] + items[i + 1..]
    ensures |RemovedFromCart(items, product)| == |items| - 1
  {
    assert IndexOf(items, product.id) == i;
  }

  /** Adding keeps the ids distinct and the quantities positive. */
  lemma AddPreservesValid(items: seq<CartItem>, product: Product)
    requires ValidCart(items)
    ensures ValidCart(AddedToCart(items, product))
  {
    var r := AddedToCart(items, product);
    if IndexOf(items, product.id) == -1 {
      assert forall i :: 0 <= i < |items| ==> r[i] == items[i];
    }
  }

  /** Deleting one line of a valid cart leaves a valid cart. */
  lemma DeletePreservesValid(items: seq<CartItem>, index: nat)
    requires ValidCart(items) && index < |items|
    ensures ValidCart(items[..index] + items[index + 1..])
  {
    var r := items[..index] + items[index + 1..];
    assert forall k :: 0 <= k < |r| ==> r[k] == items[if k < index then k else k + 1];
    forall i, j | 0 <= i < j < |r|
      ensures r[i].product.id != r[j].product.id
    {
      var i', j' := if i < index then i else i + 1, if j < index then j else j + 1;
      assert r[i] == items[i'] && r[j] == items[j'] && i' < j';
    }
  }

  /** Removing keeps the ids distinct and the quantities positive. */
  lemma RemovePreservesValid(items: seq<CartItem>, product: Product)
    requires ValidCart(items)
    ensures ValidCart(RemovedFromCart(items, product))
  {
    var index := IndexOf(items, product.id);
    if index >= 0 {
      if items[index].quantity <= 1 {
        DeletePreservesValid(items, index);
      } else {
        var r := RemovedFromCart(items, product);
        assert forall k :: 0 <= k < |r| ==> r[k].product == items[k].product;
      }
    }
  }

  /** Removing a product right after adding it restores the cart. */
  lemma RemoveUndoesAdd(items: seq<CartItem>, product: Product)
    requires PositiveQuantities(items)
    ensures RemovedFromCart(AddedToCart(items, product), product) == items
  {
    var added := AddedToCart(items, product);
    var index := IndexOf(items, product.id);
    if index == -1 {
      assert forall j :: 0 <= j < |items| ==> added[j] == items[j];
      assert added[|items|].product.id == product.id;
      assert IndexOf(added, product.id) == |items|;
      assert added[..|items|] == items;
    } else {
      assert forall j :: 0 <= j < |items| ==> added[j].product.id == items[j].product.id;
      assert IndexOf(added, product.id) == index;
    }
  }

  lemma {:induction false} QuantityOfConcat(a: seq<CartItem>, b: seq<CartItem>, id: int)
    ensures QuantityOf(a + b, id) == QuantityOf(a, id) + QuantityOf(b, id)
    decreases |b|
  {
    if b == [] {
      assert a + b == a;
    } else {
      var n := |b| - 1;
      assert (a + b)[..|a + b| - 1] == a + b[..n];
      QuantityOfConcat(a, b[..n], id);
    }
  }

  /** Quantities are never negative in a cart whose lines are positive, and then a product
      has a positive total exactly when it has a line. */
  lemma {:induction false} QuantityOfPositive(items: seq<CartItem>, id: int)
    requires PositiveQuantities(items)
    ensures QuantityOf(items, id) >= 0
    ensures QuantityOf(items, id) > 0 <==> IndexOf(items, id) >= 0
    decreases |items|
  {
    if items != [] {
      var n := |items| - 1;
      var init := items[..n];
      QuantityOfPositive(init, id);
      if IndexOf(init, id) >= 0 {
        var k := IndexOf(init, id);
        assert items[k].product.id == id;
      } else if IndexOf(items, id) >= 0 {
        assert IndexOf(items, id) == n;
      }
    }
  }

  /** The quantity of the line at `i` changes by `delta`; the totals follow. */
  lemma QuantityOfAdjust(items: seq<CartItem>, i: nat, delta: int, id: int)
    requires i < |items|
    ensures QuantityOf(items[i := items[i].(quantity := items[i].quantity + delta)], id)
         == QuantityOf(items, id) + (if items[i].product.id == id then delta else 0)
  {
    var changed := items[i].(quantity := items[i].quantity + delta);
    assert items == items[..i] + [items[i]] + items[i + 1..];
    assert items[i := changed] == items[..i] + [changed] + items[i + 1..];
    QuantityOfConcat(items[..i] + [items[i]], items[i + 1..], id);
    QuantityOfConcat(items[..i], [items[i]], id);
    QuantityOfConcat(items[..i] + [changed], items[i + 1..], id);
    QuantityOfConcat(items[..i], [changed], id);
  }

  /** Seen as a bag of products, adding puts exactly one more copy of the product in. */
  lemma AddCountsOneMore(items: seq<CartItem>, product: Product, id: int)
    ensures QuantityOf(AddedToCart(items, product), id)
         == QuantityOf(items, id) + (if id == product.id then 1 else 0)
  {
    var index := IndexOf(items, product.id);
    if index > -1 {
      QuantityOfAdjust(items, index, 1, id);
    } else {
      QuantityOfConcat(items, [CartItem(product, 1)], id);
    }
  }

  /** Seen as a bag of products, removing takes one copy of the product out when there is
      one and changes nothing otherwise. */
  lemma RemoveCountsOneLess(items: seq<CartItem>, product: Product, id: int)
    requires PositiveQuantities(items)
    ensures QuantityOf(RemovedFromCart(items, product), id)
         == QuantityOf(items, id) - (if id == product.id && QuantityOf(items, id) > 0 then 1 else 0)
  {
    var index := IndexOf(items, product.id);
    QuantityOfPositive(items, product.id);
    if index > -1 {
      if items[index].quantity > 1 {
        QuantityOfAdjust(items, index, -1, id);
      } else {
        assert items == items[..index] + [items[index]] + items[index + 1..];
        QuantityOfConcat(items[..index] + [items[index]], items[index + 1..], id);
        QuantityOfConcat(items[..index], [items[index]], id);
        QuantityOfConcat(items[..index], items[index + 1..], id);
      }
    }
  }

  // ---------------------------------------------------------------------------------------
  // The search
  // ---------------------------------------------------------------------------------------

  /** `Math.ceil(k / 2)`: the least integer not below half of `k`. */
  function CeilHalf(k: nat): (r: nat)
    ensures 2 * r >= k && 2 * r <= k + 1
  {
    (k + 1) / 2
  }

  /** `searchQuery.toLowerCase().split(" ")`. */
  function Keywords(query: string): (keywords: seq<string>)
    ensures |keywords| >= 1
  {
    Split(ToLower(query), ' ')
  }

  /** How many of the keywords (repeats counted) occur in `name`. */
  function MatchCount(name: string, keywords: seq<string>): (count: nat)
    ensures count <= |keywords|
    decreases |keywords|
  {
    if keywords == [] then 0
    else MatchCount(name, keywords[..|keywords| - 1])
         + (if Includes(name, keywords[|keywords| - 1]) then 1 else 0)
  }

  /** The positions of the keywords that occur in `name`. */
  ghost function MatchingKeywords(name: string, keywords: seq<string>): set<int>
  {
    set i | 0 <= i < |keywords| && Includes(name, keywords[i])
  }

  /** `MatchCount` counts exactly the keyword positions that occur in the name. */
  lemma {:induction false} MatchCountCountsKeywords(name: string, keywords: seq<string>)
    ensures MatchCount(name, keywords) == |MatchingKeywords(name, keywords)|
    decreases |keywords|
  {
    if keywords != [] {
      var n := |keywords| - 1;
      var init := keywords[..n];
      MatchCountCountsKeywords(name, init);
      var before := MatchingKeywords(name, init);
      if Includes(name, keywords[n]) {
        assert MatchingKeywords(name, keywords) == before + {n};
      } else {
        assert MatchingKeywords(name, keywords) == before;
      }
    }
  }

  /** The filter callback: at least half of the keywords, rounded up, occur in the
      lower-cased product name. */
  predicate Matches(product: Product, keywords: seq<string>)
  {
    MatchCount(ToLower(product.name), keywords) >= CeilHalf(|keywords|)
  }

  function SearchPredicate(keywords: seq<string>): Product -> bool
  {
    (p: Product) => Matches(p, keywords)
  }

  /** `filteredProducts` for the query `query`. */
  function SearchResults(products: seq<Product>, query: string): seq<Product>
  {
    Filter(products, SearchPredicate(Keywords(query)))
  }

  /** The search result is an order-preserving subsequence of the products, and keeps a
      product iff at least half of the keywords, rounded up, occur in its lower-cased name. */
  lemma SearchSpec(products: seq<Product>, query: string) returns (idx: seq<nat>)
    ensures Embedding(idx, SearchResults(products, query), products)
    ensures forall i :: 0 <= i < |products| ==>
      (i in idx <==> 2 * |MatchingKeywords(ToLower(products[i].name), Keywords(query))| >= |Keywords(query)|)
  {
    var keywords := Keywords(query);
    idx := FilterEmbedding(products, SearchPredicate(keywords));
    forall i | 0 <= i < |products|
      ensures i in idx <==> 2 * |MatchingKeywords(ToLower(products[i].name), keywords)| >= |keywords|
    {
      MatchCountCountsKeywords(ToLower(products[i].name), keywords);
    }
  }

  /** An empty query keeps every product: it has the single keyword "", which every name
      contains. */
  lemma EmptyQueryKeepsAll(products: seq<Product>)
    ensures SearchResults(products, "") == products
  {
    var keywords := Keywords("");
    assert keywords == [""];
    forall i | 0 <= i < |products|
      ensures SearchPredicate(keywords)(products[i])
    {
      IncludesTrivial(ToLower(products[i].name));
      assert keywords[..0] == [];
    }
    FilterKeepsAll(products, SearchPredicate(keywords));
  }

  /** A query without a space is one keyword: the search is then a plain substring test. */
  lemma SingleKeywordSearch(products: seq<Product>, query: string, p: Product)
    requires ' ' !in query
    ensures p in SearchResults(products, query) <==> p in products && Includes(ToLower(p.name), ToLower(query))
  {
    ToLowerKeepsSeparator(query, ' ');
    SplitWithoutSeparator(ToLower(query), ' ');
    var keywords := Keywords(query);
    assert keywords == [ToLower(query)] && keywords[..0] == [];
    FilterMembership(products, SearchPredicate(keywords));
  }

  /** A trailing space adds the keyword "", which every name contains; with one other
      keyword that is already half of them, so every product is kept. */
  lemma TrailingSpaceKeepsAll(products: seq<Product>, word: string)
    requires ' ' !in word
    ensures SearchResults(products, word + " ") == products
  {
    var lower := ToLower(word);
    ToLowerKeepsSeparator(word, ' ');
    assert ToLower(word + " ") == lower + " ";
    SplitFreePrefix(lower, " ", ' ');
    assert Split(" ", ' ') == [[], []];
    var keywords := Keywords(word + " ");
    assert keywords == [lower + [], []];
    forall i | 0 <= i < |products|
      ensures SearchPredicate(keywords)(products[i])
    {
      IncludesTrivial(ToLower(products[i].name));
      assert keywords[..1][..0] == [];
    }
    FilterKeepsAll(products, SearchPredicate(keywords));
  }

  /** The body of the filter callback: lower-case the name, count the keywords it contains
      one by one, and compare with half of the keyword count. */
  method KeepProduct(product: Product, keywords: seq<string>) returns (keep: bool)
    ensures keep == Matches(product, keywords)
  {
    var productName := ToLower(product.name);
    var matchCount := 0;
    for i := 0 to |keywords|
      invariant matchCount == MatchCount(productName, keywords[..i])
    {
      assert keywords[..i + 1][..i] == keywords[..i];
      if Includes(productName, keywords[i]) {
        matchCount := matchCount + 1;
      }
    }
    assert keywords[..|keywords|] == keywords;
    keep := matchCount >= CeilHalf(|keywords|);
  }

  // ---------------------------------------------------------------------------------------
  // The view's state
  // ---------------------------------------------------------------------------------------

  /** The state the book-shop view keeps between renders. */
  class Books {
    const products: seq<Product>
    var cartItems: seq<CartItem>
    var searchQuery: string
    var orderForm: OrderForm

    /** The view as first rendered: empty cart, empty query, empty form. */
    constructor (products: seq<Product>)
      ensures this.products == products
      ensures cartItems == [] && searchQuery == "" && orderForm == EmptyOrderForm
    {
      this.products := products;
      cartItems := [];
      searchQuery := "";
      orderForm := EmptyOrderForm;
    }

    /** The search box's change handler. */
    method SetSearchQuery(query: string)
      modifies this`searchQuery
      ensures searchQuery == query
    {
      searchQuery := query;
    }

    /** `filteredProducts`: the products the current query keeps, in catalogue order. */
    method FilteredProducts() returns (filtered: seq<Product>)
      ensures filtered == SearchResults(products, searchQuery)
    {
      var keywords := Split(ToLower(searchQuery), ' ');
      filtered := [];
      for i := 0 to |products|
        invariant filtered == Filter(products[..i], SearchPredicate(keywords))
      {
        assert products[..i + 1][..i] == products[..i];
        var keep := KeepProduct(products[i], keywords);
        if keep {
          filtered := filtered + [products[i]];
        }
      }
      assert products[..|products|] == products;
    }

    /** `handleAddToCart`: bump the first line of the product, or append a new line. */
    method HandleAddToCart(product: Product)
      modifies this`cartItems
      ensures cartItems == AddedToCart(old(cartItems), product)
      ensures ValidCart(old(cartItems)) ==> ValidCart(cartItems)
    {
      var index := IndexOf(cartItems, product.id);
      if index > -1 {
        var newCartItems := cartItems;
        newCartItems := newCartItems[index := newCartItems[index].(quantity := newCartItems[index].quantity + 1)];
        cartItems := newCartItems;
      } else {
        var newCartItem := CartItem(product, 1);
        cartItems := cartItems + [newCartItem];
      }
      if ValidCart(old(cartItems)) {
        AddPreservesValid(old(cartItems), product);
      }
    }

    /** `handleRemoveFromCart`: decrement the product's first line, or delete the line when
        it holds a single copy; nothing happens when the product has no line. */
    method HandleRemoveFromCart(product: Product)
      modifies this`cartItems
      ensures cartItems == RemovedFromCart(old(cartItems), product)
      ensures ValidCart(old(cartItems)) ==> ValidCart(cartItems)
    {
      var index := IndexOf(cartItems, product.id);
      if index > -1 {
        var newCartItems := cartItems;
        if newCartItems[index].quantity > 1 {
          newCartItems := newCartItems[index := newCartItems[index].(quantity := newCartItems[index].quantity - 1)];
        } else {
          newCartItems := newCartItems[..index] + newCartItems[index + 1..];
        }
        cartItems := newCartItems;
      }
      if ValidCart(old(cartItems)) {
        RemovePreservesValid(old(cartItems), product);
      }
    }

    /** `handleClearCart`. */
    method HandleClearCart()
      modifies this`cartItems
      ensures cartItems == []
    {
      cartItems := [];
    }

    /** What a successful order submission does to the view's state: the cart and the
        form are emptied. */
    method OrderAccepted()
      modifies this`cartItems, this`orderForm
      ensures cartItems == [] && orderForm == EmptyOrderForm
    {
      cartItems := [];
      orderForm := EmptyOrderForm;
    }
  }
}
