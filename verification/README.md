# jeevic_admin client core, in Dafny

A model of the small core of the restaurant/e-commerce admin front-end's REST client and
its coupon creation form. It has four parts:

- **The session holder** (`Session`): the single `APISDK` instance and its bearer token.
  The first `getInstance` call seeds the token from its argument, or from the stored
  `"access_token"`, with `|| null` collapsing empty values. Later calls return the same
  instance and overwrite the token only when an argument is given. `setAccessToken`
  replaces the token.
- **The dispatcher rule** (`Dispatch`). Every request carries `Bearer <token>`, which
  reads "Bearer null" without a token. A response whose status is outside 200–299 rejects
  with `Failed to <action>: <status> <statusText>`. Any other response resolves to its
  body unchanged. `getUser` refuses to send anything without a truthy token.
- **The product queries** (`ProductQuery`). These are the `URLSearchParams` pairs of
  `getProductsByCategory` and `getProductCount`, and their serialization as
  application/x-www-form-urlencoded text (section 5.2 of the WHATWG URL Standard, in
  `FormUrlEncoded` and `Utf8`).
- **The coupon form** (`CouponForm`). It covers editing the terms list in place, the
  `"unlimited"` → `Number.MAX_SAFE_INTEGER` mapping, and the `meta_data` map with the terms
  written as a JSON array of strings (sections 5 and 7 of RFC 8259, in `JsonStrings`).

Each serializer has a parser beside it that acts as its inverse. The round-trip lemmas
(`FormUrlEncoded.ParseSerialize`, `JsonStrings.ParseStringify`, `Utf8.DecodeEncode`,
`Numerals.IntRoundTrip`, `Dispatch.FailureMessageReadable`) are what the other contracts
use to show that nothing is lost or reordered. For example, a server reading the listing
URL recovers exactly the truthy filters and the numeric `limit` and `page`.

Parameters stand in for the parts the client does not compute:

- what browser storage returns (`Session.StoredToken`);
- the response a request receives (`Dispatch.Response`);
- the fields the client reads out of a JSON body (`count`, `id`).

Two behaviours of the code are easy to misread:

- The modal closes only when creation succeeds. `onClose()` comes after
  `await createCoupon(...)`, so a rejected creation throws first and the modal stays open
  (`CouponForm.HandleSubmit`).
- A first `getInstance(t)` stores `t || null`, so an empty token becomes null. Later calls
  store `t` exactly, the empty string included (`Session.GetInstance`,
  `Session.FreshTokenNeverEmpty`).

The uses field is rendered as an `<input type="number">`. A browser therefore never
reports the text "unlimited" for it, and an empty field submits 0 uses. The model covers
`NoOfUses` on any text all the same.

## Model

| member | source | states |
|---|---|---|
| Session.GetInstance | libs/api/index.ts:34-58 | a call constructs exactly when no instance exists; an existing instance is returned unchanged without an argument and gets exactly the given token (null and "" included) with one; a new instance holds a truthy argument, else a truthy stored token when no argument was given, else null |
| Session.FreshTokenNeverEmpty | libs/api/index.ts:56 | because an empty token collapses to null on construction, a newly constructed instance never holds the empty token |
| Session.SetAccessToken | libs/api/index.ts:60-62 | afterwards the token is exactly the argument, null and the empty string included |
| Session.StorageIgnoredOnceCreated | libs/api/index.ts:36-46 | once an instance exists, the stored token has no influence on `getInstance` |
| Session.TwiceWithoutArgument | libs/api/index.ts:34-58 | two argument-less calls return the same instance and only the first constructs it |
| Session.ExplicitThenOmitted | libs/api/index.ts:34-58 | `getInstance(t)` then `getInstance()` returns the same instance, holding `t` when truthy and null otherwise |
| Session.RunConstructsAtMostOnce | libs/api/index.ts:36-57 | over any sequence of calls at most one instance is constructed, exactly one when starting empty, and the slot is never emptied again |
| Session.RunKeepsLastGiven | libs/api/index.ts:36-62 | after any calls on an existing instance its token is exactly the last token given, or the original one if none was given |
| Dispatch.Authorization | libs/api/index.ts:74 | the header is "Bearer " followed by the held token, and the literal "Bearer null" when no token is held |
| Dispatch.Settle | libs/api/index.ts:78-84 | the promise resolves exactly when the status is 200–299, then to the body unchanged; otherwise it rejects with a request failure whose message yields back the status and status text |
| Dispatch.FailureMessageReadable | libs/api/index.ts:79-81 | the failure message embeds the exact status and status text, recoverable from the message |
| Dispatch.FailureMessageInjective | libs/api/index.ts:150-154 | different statuses or status texts of one action never give the same error message |
| Dispatch.Call | libs/api/index.ts:141-157 | a dispatcher call sends one request with the holder's current token; it succeeds exactly when the response is ok, then with the body unchanged, and otherwise fails with a message that yields back the status and status text |
| Dispatch.GetUser | libs/api/index.ts:64-85 | without a truthy token nothing is sent and the call rejects with "Authentication required"; with one, a GET of /auth/user carrying that token is sent and settles by the shared rule |
| Dispatch.NextRequestCarriesNewToken | libs/api/index.ts:60-62 | after `setAccessToken(t)` the next request carries `Bearer t` |
| Dispatch.GetInstanceTokenReachesRequests | libs/api/index.ts:37-39 | a token passed to a later `getInstance(t)` is the one the next request carries |
| ProductQuery.FilterPairs | libs/api/index.ts:2299-2300 | at most two pairs: `category_id` present exactly when truthy, then `subcategory_id` present exactly when truthy, in that order |
| ProductQuery.ListingQuery | libs/api/index.ts:2298-2302 | two to four pairs in the order category, subcategory, limit, page; filters appear only when truthy; limit and page always appear, as their decimal text |
| ProductQuery.CountQuery | libs/api/index.ts:2395-2397 | at most two pairs, in the order category, subcategory, with no other key: each filter present exactly when truthy, and never `limit` or `page` |
| ProductQuery.CountIsListingWithoutPaging | libs/api/index.ts:2395-2397 | the count query is the listing query with its trailing limit and page removed |
| ProductQuery.ListingQueryReadable | libs/api/index.ts:2298-2305 | parsing the listing URL's query gives back its pairs, from which the truthy filters and the integer limit and page are recovered |
| ProductQuery.CountQueryReadable | libs/api/index.ts:2395-2400 | parsing the count URL's query gives back its pairs |
| ProductQuery.ListingPathInjective | libs/api/index.ts:2298-2305 | two listing calls with the same URL have the same truthy filters, limit and page |
| ProductQuery.GetProductsByCategory | libs/api/index.ts:2282-2322 | one authenticated GET of the listing path, settled by the shared rule |
| ProductQuery.GetProductCount | libs/api/index.ts:2388-2418 | one authenticated GET of the count path; success exactly when ok, then the body's count; failure carries the shared error |
| FormUrlEncoded.EncodeComponent | libs/api/index.ts:2305 | a serialized name or value uses only unreserved characters, `+` and `%`, so never the `&` or `=` delimiters |
| FormUrlEncoded.ParseSerialize | libs/api/index.ts:2305 | parsing a serialized query gives back exactly the pairs, in order |
| FormUrlEncoded.SerializeInjective | libs/api/index.ts:2305 | distinct pair lists serialize to distinct query strings |
| FormUrlEncoded.DecodeEncodeComponent | libs/api/index.ts:2305 | every name or value survives percent-encoding and decoding unchanged |
| Utf8.DecodeEncode | libs/api/index.ts:2305 | decoding the UTF-8 encoding of any string gives the string back |
| Utf8.EncodeDecode | libs/api/index.ts:2305 | every well-formed byte string is the encoding of what it decodes to |
| Utf8.DecodeEncodeScalar | libs/api/index.ts:2305 | each scalar value's encoding decodes to that value and consumes exactly its bytes |
| Utf8.EncodeDecodeScalar | libs/api/index.ts:2305 | each accepted byte sequence is the only encoding of its scalar value |
| Numerals.NatToDecimal | libs/api/index.ts:80 | a status is printed as a nonempty digit string with no leading zero |
| Numerals.DecimalRoundTrip | libs/api/index.ts:80 | reading back a printed natural number gives the number |
| Numerals.DecimalCanonical | libs/api/index.ts:80 | every canonical numeral is the printed form of its value |
| Numerals.IntRoundTrip | libs/api/index.ts:2301-2302 | reading back `limit.toString()` or `page.toString()` gives the integer |
| Numerals.IntToDecimalInjective | libs/api/index.ts:2301-2302 | distinct integers print differently |
| JsonStrings.EscapeChar | components/coupan-codes/new-coupon-modal.tsx:53 | a character is written as itself exactly when it is not a control character, quotation mark or reverse solidus; otherwise as a backslash escape |
| JsonStrings.ParseStringify | components/coupan-codes/new-coupon-modal.tsx:53 | the JSON text of the terms parses back to the same strings in the same order |
| JsonStrings.StringifyInjective | components/coupan-codes/new-coupon-modal.tsx:53 | different term lists never give the same JSON text |
| CouponForm.ChangeTerm | components/coupan-codes/new-coupon-modal.tsx:29-31 | same length; position `index` holds the new value and every other position keeps its term |
| CouponForm.ChangeTermInRange | components/coupan-codes/new-coupon-modal.tsx:29-31 | an in-range edit replaces exactly that slot of the list |
| CouponForm.ChangeTermOutOfRange | components/coupan-codes/new-coupon-modal.tsx:29-31 | an out-of-range index leaves the list unchanged |
| CouponForm.ChangeTermUndo | components/coupan-codes/new-coupon-modal.tsx:29-31 | writing back the old text undoes an edit |
| CouponForm.AddTerm | components/coupan-codes/new-coupon-modal.tsx:33-35 | length grows by one, earlier terms keep their positions, the new last term is empty |
| CouponForm.RemoveTerm | components/coupan-codes/new-coupon-modal.tsx:37-39 | an in-range index removes exactly that position, the rest in order; any other index removes nothing |
| CouponForm.RemoveUndoesAdd | components/coupan-codes/new-coupon-modal.tsx:33-39 | removing the term just added restores the list |
| CouponForm.RemoveTermExactlyOne | components/coupan-codes/new-coupon-modal.tsx:37-39 | removal takes out one occurrence of the text even when equal terms exist, and shifts later terms down by one |
| CouponForm.RemoveCanEmpty | components/coupan-codes/new-coupon-modal.tsx:37-39 | the remove operation itself can empty a one-term list |
| CouponForm.OfferedEditKeepsATerm | components/coupan-codes/new-coupon-modal.tsx:184-203 | an edit the rendered form offers (remove only while more than one term) never empties a nonempty list |
| CouponForm.UiEditsKeepATerm | components/coupan-codes/new-coupon-modal.tsx:29-39 | any sequence of offered edits keeps at least one term |
| CouponForm.FromInitialTermsKeepATerm | components/coupan-codes/new-coupon-modal.tsx:24-27 | starting from the two initial terms, UI-driven editing never empties the list |
| CouponForm.NoOfUses | components/coupan-codes/new-coupon-modal.tsx:48 | "unlimited" gives 2^53−1; a digit string up to 2^53−1 gives its value ("" gives 0); no count exceeds 2^53−1 |
| CouponForm.NoOfUsesOfNumeral | components/coupan-codes/new-coupon-modal.tsx:48 | typing the numeral of a count sends that count |
| CouponForm.UnlimitedIsLargestCount | components/coupan-codes/new-coupon-modal.tsx:48 | "unlimited" is sent as the same count as typing 9007199254740991 |
| CouponForm.Payload | components/coupan-codes/new-coupon-modal.tsx:44-55 | code, flag and date text copied; uses mapped; `meta_data` has exactly four keys: the three discount fields verbatim, and terms as JSON text that parses back to the terms in order |
| CouponForm.UntouchedFormPayload | components/coupan-codes/new-coupon-modal.tsx:15-27 | submitting the form as first rendered sends an empty code, a one-time coupon with 0 uses, the "percentage" discount with empty amounts, and the two initial terms |
| CouponForm.PayloadKeepsFormFields | components/coupan-codes/new-coupon-modal.tsx:44-55 | forms that differ in code, one-time flag, date text, discount type, discount amount, minimum cart value or terms never give the same payload; `totalUses` is not covered, since "unlimited" and "9007199254740991", or "5" and "05", send the same count |
| CouponForm.HandleSubmit | components/coupan-codes/new-coupon-modal.tsx:41-59 | the client is taken from `getInstance()`: an existing instance is kept, otherwise one is built from the truthy stored token or null; the payload is POSTed to /coupon with that instance's token; the modal closes exactly when creation succeeds, and a failed creation carries its status and status text instead |

## Left out

- The roughly ninety other dispatcher methods. They follow the same send-then-settle rule
  (`Dispatch.Call`, `Dispatch.Settle`) and differ only in path, verb and body. The login
  requests that send no Authorization header are among them.
- Foreign I/O is not modelled: `fetch`, `response.json()`, JSON bodies sent with
  `JSON.stringify(data)`, `FormData` uploads (`uploadFile`, `createBanner`), `localStorage`
  itself, `console.error`, and the `env` base URL. Paths are modelled below the base URL.
- The parsers are strict, which matters only for inputs the serializers never produce:
  - the form-urlencoded parser rejects ill-formed UTF-8 where the standard substitutes
    U+FFFD;
  - the JSON parser accepts no insignificant whitespace and no surrogate-pair `\u`
    escapes.
- Dafny strings hold Unicode scalar values. JavaScript strings can also hold lone
  surrogates, which `URLSearchParams` turns into U+FFFD and `JSON.stringify` escapes. Such
  strings are not modelled.
- `new Date(expiryDate)`: the payload carries the date text, not a parsed date.
- Async suspension, concurrent or double submissions, React rendering, styling, and the
  radio and toggle markup.
- CouponForm.NoOfUses: `Number()` is modelled only on "unlimited" and on digit strings
  up to 2^53−1. Other text (signs, decimals, exponents, whitespace, larger values) is
  floating-point behaviour and is carried as `Unmodelled(text)`.
- ProductQuery.ListingQuery: `limit` and `page` are modelled as integers. JavaScript
  prints fractional numbers, magnitudes of 10^21 or more, NaN ("NaN") and ±Infinity
  ("Infinity", "-Infinity") differently from `IntToDecimal`.
- ProductQuery.GetProductCount: reading `data.count` is an input function `count`. The
  body is not checked to have that field.
- CouponForm.HandleSubmit: reading `res.id` is an input function `id`. The coupon body's
  JSON encoding is not modelled.
