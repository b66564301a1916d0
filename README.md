# Ubermelon shop: verified model of the cart and the customer store

This project models the two pieces of real logic in the Ubermelon teaching shop, a small Flask site:

- **The shopping cart** (`solution/main-exercise/shoppingsite.py`). The cart page walks the session's list of melon ids. It builds a table `id -> {common_name, unit_cost, qty, total_cost}` and keeps a running order total. The catalog is consulted only the first time an id is seen. Adding a melon to the cart creates the session's list if there is none, then appends the id. There is no deduplication and no check against the catalog.
- **The customer store** (`solution/further-study/customers.py`). Each line of the customer file is stripped and split on `|`. It must give exactly four fields (first name, last name, email, password), and the customer is stored under its email. A later line with the same email replaces an earlier one. A line with another field count makes the whole read fail. `get_by_email` is a lookup that fails on an unknown email. `__repr__` shows the names and the password.

Modules:

- `Wrappers` (`wrappers.dfy`) holds `Option` and `Result`.
- `ShoppingSite` (`shoppingsite.dfy`) holds the cart.
  - The loop is the method `ShoppingCart`, over a local `map` that holds the dictionary.
  - It is proved equal to the fold `Aggregate`, whose properties are proved as lemmas.
  - The session is the class `Session`. Its one field `cart` is absent (`None`) until the first add.
- `Customers` (`customers.dfy`) holds the customer store.
  - `Customer` is a datatype, because its fields are only set by its constructor.
  - The read loop is the method `ReadCustomersFromFile`, proved equal to the fold `ReadSpec`.
  - `str.strip()` and `str.split("|")` are written out, with their round trips.

Modelling choices:

- Prices are integers (cents, say) instead of floats.
- The catalog that `melons.get_by_id` reads is the map `Catalog` from id to name and price.
- A lookup of an id missing from the catalog aborts the whole aggregation with `NotFound`.
- The customer file is its sequence of lines. A line may still carry its line end, which `strip()` removes.
- Whitespace for `strip()` is Python 2's: space, tab, line feed, carriage return, vertical tab, form feed.

The cart page returns `cart.values()`, a list in unspecified order, so the model returns the table as a map keyed by id.

## Model

| member | source | states |
|---|---|---|
| `ShoppingSite.ShoppingCart` | solution/main-exercise/shoppingsite.py:63-100 | The loop builds the same table and total as the fold `Aggregate`. It succeeds exactly when every id is in the catalog. On success the result satisfies `IsSummaryOf`: the keys are exactly the distinct ids; each entry's name and unit cost are the catalog's; qty is the id's number of occurrences; total_cost is qty * unit_cost; the order total equals both the sum of the price of every id, duplicates included, and the sum of the line totals. |
| `ShoppingSite.Step` | solution/main-exercise/shoppingsite.py:80-97 | One iteration fails exactly when the id is neither in the table nor in the catalog, and the failure names that id. Otherwise only that id's entry changes. The entry is the existing one, or for a new id the catalog's name and price with qty 0 and total 0. Its qty grows by one, its total_cost by the unit cost, and the order total by the same unit cost. |
| `ShoppingSite.Aggregate` | solution/main-exercise/shoppingsite.py:78-97 | A failed aggregation names an id that occurs in the cart and is missing from the catalog. |
| `ShoppingSite.AggregateCorrect` | solution/main-exercise/shoppingsite.py:78-97 | For every cart and catalog: the aggregation fails exactly when some id is missing from the catalog. Otherwise its result satisfies all of `IsSummaryOf`. |
| `ShoppingSite.StepKeepsSummary` | solution/main-exercise/shoppingsite.py:80-97 | One loop iteration for a catalogued id succeeds. If the table summarised the ids so far (all of `IsSummaryOf`), the new table summarises those ids followed by this id. |
| `ShoppingSite.StaleIdFails` | solution/main-exercise/shoppingsite.py:78-85 | A cart holding an id the catalog lacks fails with `NotFound`, naming the first such id in the cart. No partial table is returned. |
| `ShoppingSite.NonNegativeTotals` | solution/main-exercise/shoppingsite.py:85-97 | When every catalog price is at least zero, a cart that aggregates has no negative amount: every unit cost and every line total is at least zero, and so is the order total. |
| `ShoppingSite.CoalescingExample` | solution/main-exercise/shoppingsite.py:78-97 | The cart `[A, B, A]`, with A at 200 and B at 300, gives two entries: A with qty 2 and total 400, B with qty 1 and total 300. The order total is 700. |
| `ShoppingSite.CartIds` | solution/main-exercise/shoppingsite.py:66 | A session without a cart reads as the empty list. A session with a cart reads as exactly that list. |
| `ShoppingSite.Appended` | solution/main-exercise/shoppingsite.py:114-121 | The cart after an add is one longer. Its existing elements are unchanged and `id` is last. A missing cart counts as empty. |
| `ShoppingSite.Session.AddToCart` | solution/main-exercise/shoppingsite.py:113-121 | The session's cart becomes present and equals the old cart (or the empty list) followed by `id`. Nothing else in the session changes. |
| `ShoppingSite.AddToCartCounts` | solution/main-exercise/shoppingsite.py:121 | Adding `id` raises its count by one and leaves every other id's count unchanged. There is no deduplication. |
| `ShoppingSite.AddThenSummarize` | solution/main-exercise/shoppingsite.py:114-121 | Adding X to an absent or empty cart and then aggregating gives exactly one entry: X with qty 1 and the catalog price as both its total and the order total. If X is not in the catalog, the add still happens and the aggregation fails with `NotFound(X)`. |
| `ShoppingSite.AddThenSummarizeAny` | solution/main-exercise/shoppingsite.py:80-97 | Adding a catalogued id to any cart that aggregates changes the table as follows: the key set gains that id; every other entry is unchanged; that id's qty is one more than before (1 if it is new); the order total grows by its price. |
| `Customers.Repr` | solution/further-study/customers.py:13-18 | The text is `<Customer: `, first name, a space, last name, `, `, password, `>`, with each field at its position. Its length is the three fields' lengths plus 15. |
| `Customers.ReprOmitsEmail` | solution/further-study/customers.py:13-18 | The text does not depend on the email. |
| `Customers.StripLeft` | solution/further-study/customers.py:30 | The result is a suffix of the input. Everything removed is whitespace, and the result does not start with whitespace. |
| `Customers.StripRight` | solution/further-study/customers.py:30 | The result is a prefix of the input. Everything removed is whitespace, and the result does not end with whitespace. |
| `Customers.Strip` | solution/further-study/customers.py:30 | The stripped line has no whitespace at either end. |
| `Customers.StripSlice` | solution/further-study/customers.py:30 | The stripped line is a slice of the input, with only whitespace before it and after it. |
| `Customers.StripFramed` | solution/further-study/customers.py:30 | Stripping a text with no whitespace at either end, surrounded by any whitespace, gives back exactly that text. |
| `Customers.Split` | solution/further-study/customers.py:30 | Splitting always gives at least one field, and no field contains the separator. |
| `Customers.JoinSplit` | solution/further-study/customers.py:30 | Joining the fields of a split with the separator gives the original text back. |
| `Customers.SplitJoin` | solution/further-study/customers.py:30 | Splitting the join of separator-free fields gives those fields back. |
| `Customers.ParseLine` | solution/further-study/customers.py:29-31 | A line parses exactly when strip-and-split gives 4 fields. The customer's first name, last name, email and password are those fields in that order. Otherwise the error carries the field count. |
| `Customers.ParseFormatted` | solution/further-study/customers.py:29-31 | A customer written as a `|`-joined line, followed by any line end made of whitespace, parses back to the same customer. This holds when no field contains `|` and the line does not begin or end with whitespace. |
| `Customers.ReadSpec` | solution/further-study/customers.py:27-33 | A failed read names the index of a line of the file. A successful read stores every customer under their own email. |
| `Customers.ReadCustomersFromFile` | solution/further-study/customers.py:21-33 | The loop gives the fold `ReadSpec`. It succeeds exactly when every line is well formed. On success the table satisfies `Loaded`: each customer is stored under its own email; the keys are exactly the emails of the lines; each email holds the customer of the last line with that email. |
| `Customers.ReadCorrect` | solution/further-study/customers.py:27-33 | For every sequence of lines: the read succeeds exactly when all lines are well formed, and then satisfies `Loaded`. |
| `Customers.FirstMalformedLineFails` | solution/further-study/customers.py:29-30 | If some line is malformed, the whole read fails and no table is returned. The error names the first malformed line and its field count. |
| `Customers.LaterLineWins` | solution/further-study/customers.py:31 | Two well-formed lines with the same email give a table with that one key, holding the second line's customer. |
| `Customers.GetByEmail` | solution/further-study/customers.py:36-41 | The lookup succeeds exactly when the email is a key, and then returns the stored customer. Otherwise it fails naming the email. |
| `Customers.GetByEmailAfterRead` | solution/further-study/customers.py:36-41 | On a table read from a file, the lookup succeeds exactly for the emails that occur in the lines. It returns a customer with that email: the customer of the last line with it. |

## Left out

- Flask routing, the Jinja configuration, `render_template`, `flash`, `redirect` and `app.run`: these are framework and page glue with no logic of their own.
- The pages `index`, `list_melons`, `show_melon`, `show_login`, `process_login` and `checkout`: they only render pages, or are unimplemented stubs. The `print` in `show_melon` is output only.
- Session persistence across requests: the session is a `Session` object with a single `cart` field. The aggregation receives the cart as a plain sequence.
- The `melons` module (`get_all`, `get_by_id` and its file parsing) is not part of this model. The catalog is a map. A lookup miss is assumed to raise, which aborts the cart page.
- Float prices: prices are integers, so there is no rounding.
- Opening and reading files: the customer file is given as its lines. The module-level table `customers`, loaded when the module is imported, is an explicit map passed to `GetByEmail`.
- Python 2 byte strings: text is a sequence of characters. Only the six ASCII whitespace characters count for `strip()`.
- The identity of dictionaries: the model's table entries are values. It does not capture the aliasing through which the source updates `cart_info` while it is inside `cart`.
