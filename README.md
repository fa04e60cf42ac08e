# Storefront cart, book search and admin order list — a Dafny model

This project models the two pieces of logic in the storefront's browser client:

- **The book-shop view** (`src/ProductList/BookShop/Books.js`). The cart is a list of
  lines `{product, quantity}`. Adding a product bumps the quantity of its first line or
  appends a line with quantity 1. Removing decrements the quantity, or deletes the line
  when it holds one copy, and does nothing for a product without a line. Clearing and a
  successful checkout empty the cart. The search lower-cases the query and splits it on
  `" "`. It keeps a product when at least `ceil(k/2)` of the `k` keywords are substrings
  of its lower-cased name.
- **The admin order list** (`src/pages/order/OrderList.js`). A case-insensitive address
  search. Each filtered order is zipped with the `timeLeft` array, falling back to `0`.
  A 48-hour countdown is computed from integer milliseconds. An order is replaced by
  `_id` once the server confirms a change of its "checked" switch. The "48 hours" cell
  shows `completed` for a checked order and its `timeLeft` entry otherwise. That entry is
  0 before the first tick. Until the next tick after the filter changes, it is the label
  computed for the order that last held that row, because `timeLeft` is matched to the
  rows by position.

Files and modules:

- `sequences.dfy`, module `Sequences`: `Filter`, the model of `Array.prototype.filter`.
  Lemmas show it keeps an order-preserving subsequence made of exactly the elements
  that satisfy the predicate.
- `text.dfy`, module `Text`: the string built-ins the views call. These are ASCII
  `toLowerCase`, `includes`, `split` on one character (with `join`, its inverse), and the
  decimal printing of a number in a template literal (with reading the digits back).
- `book_shop.dfy`, module `BookShop`: the cart and the search. The view's state is the
  class `Books`, with fields `cartItems`, `searchQuery` and `orderForm`. Its handlers
  change those fields, and their `ensures` tie the new cart to the functions
  `AddedToCart` and `RemovedFromCart` of the old cart. The lemmas about those functions
  state each branch of the handlers. They also state that the cart invariant (distinct
  ids, positive quantities) is kept, that removing undoes adding, and that the cart
  behaves as a bag of products. The filter callback's `for` loop is the method
  `KeepProduct`. The `filter` around it is the method `Books.FilteredProducts`, proved
  equal to the function `SearchResults`.
- `order_list.dfy`, module `OrderList`: pure functions over the list of orders, plus
  lemmas.

Timestamps are integer milliseconds since the epoch. One timer tick is the function
`Tick(rows, now)`, with the clock reading `now` passed in as a parameter.

## Model

| member | source | states |
|---|---|---|
| `BookShop.IndexOf` | src/ProductList/BookShop/Books.js:65 | `findIndex`: −1 when no line has the id, otherwise a position holding the id with none before it |
| `BookShop.AddAbsentAppends` | src/ProductList/BookShop/Books.js:71-74 | adding a product without a line appends exactly one line `{product, quantity: 1}` and keeps every earlier line |
| `BookShop.AddPresentIncrements` | src/ProductList/BookShop/Books.js:65-70 | adding a product whose first line is at `i` raises that line's quantity by one; the length and every other line stay as they were |
| `BookShop.RemoveAbsentUnchanged` | src/ProductList/BookShop/Books.js:81-82 | removing a product without a line leaves the cart unchanged |
| `BookShop.RemoveDecrements` | src/ProductList/BookShop/Books.js:85-87 | removing a product whose first line has quantity above 1 lowers that quantity by one; the length and the other lines stay |
| `BookShop.RemoveDeletesLine` | src/ProductList/BookShop/Books.js:88-90 | removing a product whose first line has quantity 1 or less deletes exactly that line; the length drops by one and the rest keep their order |
| `BookShop.AddPreservesValid` | src/ProductList/BookShop/Books.js:63-76 | adding keeps the ids distinct and all quantities at least 1 |
| `BookShop.RemovePreservesValid` | src/ProductList/BookShop/Books.js:79-94 | removing keeps the ids distinct and all quantities at least 1 |
| `BookShop.RemoveUndoesAdd` | src/ProductList/BookShop/Books.js:63-94 | on a cart whose quantities are all at least 1, removing a product right after adding it gives back the original cart |
| `BookShop.AddCountsOneMore` | src/ProductList/BookShop/Books.js:63-76 | as a bag of products, adding raises the added product's total by one and leaves every other product's total alone |
| `BookShop.RemoveCountsOneLess` | src/ProductList/BookShop/Books.js:79-94 | as a bag of products, removing lowers the product's total by one when it is in the cart and changes nothing else |
| `BookShop.CeilHalf` | src/ProductList/BookShop/Books.js:48 | `Math.ceil(k / 2)` is the least integer whose double is at least `k` |
| `BookShop.Keywords` | src/ProductList/BookShop/Books.js:32 | the split query always has at least one keyword |
| `BookShop.MatchCountCountsKeywords` | src/ProductList/BookShop/Books.js:42-47 | the match count equals the number of keyword positions whose keyword occurs in the name |
| `BookShop.KeepProduct` | src/ProductList/BookShop/Books.js:41-48 | the filter callback's counting loop answers true exactly when at least half of the keywords, rounded up, occur in the lower-cased name |
| `BookShop.SearchSpec` | src/ProductList/BookShop/Books.js:32-49 | the result is an order-preserving subsequence of the products; product `i` is kept iff twice the number of its matching keywords is at least the keyword count |
| `BookShop.EmptyQueryKeepsAll` | src/ProductList/BookShop/Books.js:32-48 | the empty query keeps every product: its one keyword `""` occurs in every name |
| `BookShop.SingleKeywordSearch` | src/ProductList/BookShop/Books.js:32-48 | for a query without a space, a product is in the result iff it is in the catalogue and its lower-cased name contains the lower-cased query |
| `BookShop.TrailingSpaceKeepsAll` | src/ProductList/BookShop/Books.js:32-48 | a one-word query followed by a space keeps every product, because the empty keyword matches everything and one of two is already half |
| `BookShop.Books.constructor` | src/ProductList/BookShop/Books.js:26-59 | the view starts from the given catalogue, with an empty cart, an empty query and an empty order form |
| `BookShop.Books.SetSearchQuery` | src/ProductList/BookShop/Books.js:138 | the search box's change handler stores the new query and nothing else |
| `BookShop.Books.FilteredProducts` | src/ProductList/BookShop/Books.js:40-49 | the filtering loop returns exactly `SearchResults` of the catalogue for the current query |
| `BookShop.Books.HandleAddToCart` | src/ProductList/BookShop/Books.js:63-76 | the new cart is `AddedToCart` of the old one, only the cart changes, and a valid cart stays valid |
| `BookShop.Books.HandleRemoveFromCart` | src/ProductList/BookShop/Books.js:79-94 | the new cart is `RemovedFromCart` of the old one, only the cart changes, and a valid cart stays valid |
| `BookShop.Books.HandleClearCart` | src/ProductList/BookShop/Books.js:50-52 | the cart becomes empty and nothing else changes |
| `BookShop.Books.OrderAccepted` | src/ProductList/BookShop/Books.js:110-115 | after an accepted order the cart and the order form are empty |
| `Sequences.FilterEmbedding` | src/ProductList/BookShop/Books.js:40 | `filter` returns an order-preserving subsequence whose positions are exactly those whose element satisfies the predicate |
| `Sequences.FilterMembership` | src/pages/order/OrderList.js:30-33 | a value is in the filtered list iff it is in the list and satisfies the predicate |
| `Text.ToLowerIdempotent` | src/pages/order/OrderList.js:32 | a lower-cased string has no capital letter, and lower-casing it again changes nothing |
| `Text.ToLowerKeepsSeparator` | src/ProductList/BookShop/Books.js:32 | lower-casing neither creates nor removes a space or any other non-letter |
| `Text.IncludesTrivial` | src/ProductList/BookShop/Books.js:44 | every string includes the empty string and itself |
| `Text.JoinSplit` | src/ProductList/BookShop/Books.js:32 | joining the pieces of `split(" ")` with `" "` gives back the string |
| `Text.SplitPieces` | src/ProductList/BookShop/Books.js:32 | `split` yields one piece more than there are separators, and no piece holds a separator |
| `Text.SplitJoin` | src/ProductList/BookShop/Books.js:32 | splitting the join of separator-free pieces gives back the pieces |
| `Text.NatToStringValue` | src/pages/order/OrderList.js:54 | the decimal digits printed for a number read back as that number |
| `OrderList.FilteredRowsSpec` | src/pages/order/OrderList.js:30-37 | the rows are an order-preserving subsequence of the orders, exactly those whose lower-cased address contains the lower-cased term, each with all its fields; row `k` gets `timeLeft[k]` when that entry exists and is truthy, else 0 |
| `OrderList.FirstRenderShowsZero` | src/pages/order/OrderList.js:11-37 | before the first tick, when `timeLeft` is still `[]`, every row carries 0 and an unchecked order's "48 hours" cell reads `0` |
| `OrderList.AddressSearchSpec` | src/pages/order/OrderList.js:30-33 | the address search keeps an order-preserving subsequence: exactly the orders whose lower-cased address contains the lower-cased term |
| `OrderList.EmptySearchTermKeepsAll` | src/pages/order/OrderList.js:30-33 | an empty search term keeps every order |
| `OrderList.SearchIgnoresTermCase` | src/pages/order/OrderList.js:32 | the search gives the same orders for the term and for its lower-cased form |
| `OrderList.CountdownAt` | src/pages/order/OrderList.js:44-53 | the countdown is `Expired` iff `orderTime + 172800000 - now < 0`; otherwise minutes and seconds lie in 0..59 |
| `OrderList.CountdownReconstructs` | src/pages/order/OrderList.js:49-53 | for a live countdown, `h*3600000 + m*60000 + s*1000 <= timeDiff < h*3600000 + m*60000 + s*1000 + 1000` |
| `OrderList.CountdownAtDeadline` | src/pages/order/OrderList.js:45-48 | a difference of exactly zero is not expired and reads 0h 0m 0s |
| `OrderList.CountdownHoursBound` | src/pages/order/OrderList.js:45-49 | when `now >= orderTime`, a live countdown has at most 48 hours |
| `OrderList.RenderShape` | src/pages/order/OrderList.js:46-54 | every countdown label is non-empty (truthy), starts with `E` or a digit, and is never `completed` |
| `OrderList.RenderKeepsFields` | src/pages/order/OrderList.js:54 | a live label is `<h>h <m>m <s>s`, and its three numbers read back as the countdown's fields |
| `OrderList.Tick` | src/pages/order/OrderList.js:43-55 | one tick yields one label per filtered order |
| `OrderList.TickAligns` | src/pages/order/OrderList.js:30-56 | after a tick, with orders and term unchanged, filtered row `i` is matching order `i` and carries the countdown label of its own order |
| `OrderList.TickAfterFilterChange` | src/pages/order/OrderList.js:30-56 | after a tick under one term and a change to another, row `k` is matching order `k` of the new term but carries the label of row `k` of the old term, and 0 past the old row count |
| `OrderList.StaleLabelExample` | src/pages/order/OrderList.js:30-56 | for a "main" order placed at 0 and an "elm" order 100000000 ms later, switching the term from "" to "elm" leaves the "elm" order showing the "main" order's countdown, which differs from its own while the "main" order is live |
| `OrderList.LaterOrderMoreHours` | src/pages/order/OrderList.js:45-49 | while the earlier order is live, an order placed an hour or more later is live too and has strictly more hours left |
| `OrderList.ReplaceById` | src/pages/order/OrderList.js:73-77 | substituting the updated order keeps the list's length |
| `OrderList.ReplaceByIdAt` | src/pages/order/OrderList.js:74-76 | exactly the orders whose `_id` equals the updated order's are replaced by it; all others stay the same |
| `OrderList.ReplaceByIdNoMatch` | src/pages/order/OrderList.js:74-76 | when no order has the updated order's `_id`, the list is unchanged |
| `OrderList.ReplaceByIdIdempotent` | src/pages/order/OrderList.js:73-77 | applying the same server answer twice gives the same list as applying it once |
| `OrderList.CheckedChanged` | src/pages/order/OrderList.js:71-83 | after the PATCH the list keeps its length; on success exactly the orders with the returned order's `_id` are replaced by it, and on failure every order stays as it was |
| `OrderList.CheckedChangeTogglesOne` | src/pages/order/OrderList.js:62-77 | with distinct ids, a confirmed switch of order `k` changes only `checked` in order `k` and leaves every other order as it was |
| `OrderList.CompletedIffChecked` | src/pages/order/OrderList.js:138 | when the timeLeft is 0 or a countdown label, the cell reads `completed` iff the order is checked |

## Left out

- Network calls: the `fetch` requests and their handling (`POST /api/orders`, `GET /api/orders`, `PATCH /api/orders/:id`) are I/O against a backend that is not part of this model. The PATCH answer is the parameter `PatchResponse`, and an accepted order is the method `OrderAccepted`.
- Browser state: `window.location.replace`, `alert`, `console` logging and the `sessionStorage` check that shows the switch only to the admin e-mail are browser I/O.
- React scheduling: `useState`, `useEffect`, `setInterval` and re-render timing are not modelled. A tick is `Tick(rows, now)`, and the state it sets is the `timeLeft` argument of `FilteredOrders`.
- Dates: `new Date(...)` parsing, `getTime()` and `toLocaleString()` are locale-dependent library calls. `Order.date` is already the order time in integer milliseconds, and the current time is a parameter.
- JavaScript numbers are doubles. Product ids, quantities and timestamps are unbounded integers here, which agrees with the source for integers below 2^53. An unparsable date (NaN) is not modelled.
- Prices: the discounted price `price * 0.9`, the order total `price * quantity * 0.7` and `toFixed(2)` are floating-point display code. `Product` keeps only `id` and `name`; price and images are left out.
- Lower-casing is ASCII only. Full Unicode `toLowerCase` is not modelled.
- The shallow copy when a quantity changes (Books.js lines 68-69 and 87): the copied array shares its item objects with the old state, so `+= 1` and `-= 1` also change the previous state's object. The model treats cart lines as values.
- Building the order request body, the product details modal (`selectedProduct`), the order-form change handler of the cart component, and all JSX and styling are view code.
- `src/pages/auth/SignUp.js` (a form that posts to `/api/signup`) and `src/index.js` (the React bootstrap) are not part of this model.
