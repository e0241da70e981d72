/** The coupon creation form (components/coupan-codes/new-coupon-modal.tsx): editing the
    list of terms, and turning the form's fields into the payload `createCoupon` sends. */
module CouponForm {
  import opened Wrappers
  import opened JsValues
  import opened Numerals
  import opened JsonStrings
  import opened Session
  import opened Dispatch

  /** `Number.MAX_SAFE_INTEGER`, 2^53 - 1. */
  const MaxSafeInteger: nat := 0x1F_FFFF_FFFF_FFFF

  /** The text in the uses field that asks for unlimited uses. */
  const Unlimited := "unlimited"

  /** The two terms the form starts with. */
  const InitialTerms: seq<string> := [
    "20% off up to \U{20B9}999 on orders above \U{20B9}4000.",
    "Lorem ipsum dolor sit amet, consectetur adipiscing elit, sed do eiusmod tempor incididunt ut labore et dolore magna aliqua."
  ]

  // ---------------------------------------------------------------------------------
  // Editing the terms

  /** `handleTermChange(index, value)`: `terms.map((term, i) => i === index ? value : term)`.
      Every position keeps its term except `index`, which now holds `value`. */
  function ChangeTerm(terms: seq<string>, index: int, value: string): (r: seq<string>)
    ensures |r| == |terms|
    ensures forall i :: 0 <= i < |r| ==> r[i] == (if i == index then value else terms[i])
    decreases |terms|
  {
    if terms == [] then []
    else
      var last := |terms| - 1;
      ChangeTerm(terms[..last], index, value) + [if last == index then value else terms[last]]
  }

  /** `handleAddTerm`: one empty term appended after the existing ones. */
  function AddTerm(terms: seq<string>): (r: seq<string>)
    ensures |r| == |terms| + 1
    ensures r[..|terms|] == terms && r[|terms|] == ""
  {
    terms + [""]
  }

  /** `handleRemoveTerm(index)`: `terms.filter((_, i) => i !== index)`. Exactly the term
      at position `index` goes, the others keep their order; an index outside the list
      removes nothing. */
  function RemoveTerm(terms: seq<string>, index: int): (r: seq<string>)
    ensures 0 <= index < |terms| ==> r == terms[..index] + terms[index + 1..]
    ensures !(0 <= index < |terms|) ==> r == terms
    decreases |terms|
  {
    if terms == [] then []
    else
      var last := |terms| - 1;
      RemoveTerm(terms[..last], index) + (if last == index then [] else [terms[last]])
  }

  /** Editing an in-range position is replacing that one slot. */
  lemma ChangeTermInRange(terms: seq<string>, index: int, value: string)
    requires 0 <= index < |terms|
    ensures ChangeTerm(terms, index, value) == terms[..index] + [value] + terms[index + 1..]
  {
  }

  /** Editing a position the list does not have changes nothing. */
  lemma ChangeTermOutOfRange(terms: seq<string>, index: int, value: string)
    requires !(0 <= index < |terms|)
    ensures ChangeTerm(terms, index, value) == terms
  {
  }

  /** Writing back the old text of a term undoes an edit. */
  lemma ChangeTermUndo(terms: seq<string>, index: int, value: string)
    requires 0 <= index < |terms|
    ensures ChangeTerm(ChangeTerm(terms, index, value), index, terms[index]) == terms
  {
  }

  /** Removing the term just added gives back the list before the addition. */
  lemma RemoveUndoesAdd(terms: seq<string>)
    ensures RemoveTerm(AddTerm(terms), |terms|) == terms
  {
  }

  /** Removal takes out one occurrence of the removed text, however many equal terms the
      list holds, and leaves every other term in place, shifted down past `index`. */
  lemma RemoveTermExactlyOne(terms: seq<string>, index: int)
    requires 0 <= index < |terms|
    ensures multiset(RemoveTerm(terms, index)) + multiset{terms[index]} == multiset(terms)
    ensures forall k :: 0 <= k < |terms| - 1 ==>
      RemoveTerm(terms, index)[k] == terms[if k < index then k else k + 1]
  {
    var r := RemoveTerm(terms, index);
    assert terms == terms[..index] + [terms[index]] + terms[index + 1..];
  }

  /** The remove control does not check the length itself: removing the only term
      empties the list. */
  lemma RemoveCanEmpty(term: string)
    ensures RemoveTerm([term], 0) == []
  {
  }

  /** The edits the rendered form offers: an input per term, the add button, and a remove
      button per term that is shown only while more than one term is listed. */
  datatype TermEdit = EditTerm(index: int, value: string) | AddOne | RemoveOne(index: int)

  predicate Offered(terms: seq<string>, e: TermEdit)
  {
    match e
    case EditTerm(i, _) => 0 <= i < |terms|
    case AddOne => true
    case RemoveOne(i) => |terms| > 1 && 0 <= i < |terms|
  }

  function ApplyEdit(terms: seq<string>, e: TermEdit): seq<string>
  {
    match e
    case EditTerm(i, v) => ChangeTerm(terms, i, v)
    case AddOne => AddTerm(terms)
    case RemoveOne(i) => RemoveTerm(terms, i)
  }

  /** Whether every edit in turn is one the form offers at that moment. */
  predicate AllOffered(terms: seq<string>, edits: seq<TermEdit>)
    decreases |edits|
  {
    edits == [] || (Offered(terms, edits[0]) && AllOffered(ApplyEdit(terms, edits[0]), edits[1..]))
  }

  function ApplyAll(terms: seq<string>, edits: seq<TermEdit>): seq<string>
    decreases |edits|
  {
    if edits == [] then terms else ApplyAll(ApplyEdit(terms, edits[0]), edits[1..])
  }

  /** An offered edit never empties a nonempty list. */
  lemma OfferedEditKeepsATerm(terms: seq<string>, e: TermEdit)
    requires |terms| >= 1 && Offered(terms, e)
    ensures |ApplyEdit(terms, e)| >= 1
  {
  }

  /** Whatever edits a user makes through the form, starting from the initial terms, at
      least one term remains. */
  lemma {:induction false} UiEditsKeepATerm(terms: seq<string>, edits: seq<TermEdit>)
    requires |terms| >= 1 && AllOffered(terms, edits)
    ensures |ApplyAll(terms, edits)| >= 1
    decreases |edits|
  {
    if edits != [] {
      OfferedEditKeepsATerm(terms, edits[0]);
      UiEditsKeepATerm(ApplyEdit(terms, edits[0]), edits[1..]);
    }
  }

  lemma FromInitialTermsKeepATerm(edits: seq<TermEdit>)
    requires AllOffered(InitialTerms, edits)
    ensures |ApplyAll(InitialTerms, edits)| >= 1
  {
    UiEditsKeepATerm(InitialTerms, edits);
  }

  // ---------------------------------------------------------------------------------
  // The submitted payload

  /** `no_of_uses` as sent: exactly `Number(totalUses)` for the texts this model covers
      (digit strings, the empty one reading 0, up to `MaxSafeInteger`), and
      `MaxSafeInteger` for "unlimited". Any other text is carried as it is, because what
      `Number` makes of it is floating-point behaviour outside the model. */
  datatype Uses = Exact(count: nat) | Unmodelled(text: string)

  function NoOfUses(field: string): (u: Uses)
    ensures field == Unlimited ==> u == Exact(MaxSafeInteger)
    ensures field == "" ==> u == Exact(0)
    ensures u.Exact? ==> u.count <= MaxSafeInteger
    ensures u.Exact? && field != Unlimited ==> AllDigits(field) && u.count == DigitsValue(field)
    ensures AllDigits(field) && DigitsValue(field) <= MaxSafeInteger ==> u == Exact(DigitsValue(field))
    ensures u.Unmodelled? ==> u.text == field
  {
    if field == Unlimited then Exact(MaxSafeInteger)
    else if AllDigits(field) && DigitsValue(field) <= MaxSafeInteger then Exact(DigitsValue(field))
    else Unmodelled(field)
  }

  /** A use count typed as its numeral is sent as that count. */
  lemma NoOfUsesOfNumeral(n: nat)
    requires n <= MaxSafeInteger
    ensures NoOfUses(NatToDecimal(n)) == Exact(n)
  {
    DecimalRoundTrip(n);
    assert NatToDecimal(n) != Unlimited by {
      assert IsDigit(NatToDecimal(n)[0]);
    }
  }

  /** "unlimited" is sent as the same count as typing 9007199254740991: the server cannot
      tell the two apart. */
  lemma UnlimitedIsLargestCount()
    ensures NoOfUses(Unlimited) == NoOfUses(NatToDecimal(MaxSafeInteger))
  {
    NoOfUsesOfNumeral(MaxSafeInteger);
  }

  datatype DiscountType = Percentage | Amount

  function DiscountTypeText(d: DiscountType): string
  {
    match d
    case Percentage => "percentage"
    case Amount => "amount"
  }

  /** The form's local state. */
  datatype Form = Form(
    couponCode: string,
    oneTimeUse: bool,
    totalUses: string,
    expiryDate: string,
    discountType: DiscountType,
    discountAmount: string,
    minimumCartValue: string,
    terms: seq<string>)

  const InitialForm := Form("", true, "", "", Percentage, "", "", InitialTerms)

  /** The `createCoupon` argument. `expiresOn` is the date text handed to `new Date`,
      whose parsing is not modelled. */
  datatype CouponPayload = CouponPayload(
    code: string,
    isOneTime: bool,
    expiresOn: string,
    noOfUses: Uses,
    metaData: map<string, string>)

  const MetaDataKeys := {"discountType", "discountAmount", "minimumCartValue", "terms"}

  /** The payload `handleSubmit` builds: code and one-time flag copied, the uses count
      mapped, and a `meta_data` map holding exactly the discount type, discount amount and
      minimum cart value verbatim plus the terms as a JSON array that reads back as the
      same terms, in order. */
  function Payload(form: Form): (p: CouponPayload)
    ensures p.code == form.couponCode && p.isOneTime == form.oneTimeUse
    ensures p.expiresOn == form.expiryDate
    ensures p.noOfUses == NoOfUses(form.totalUses)
    ensures p.metaData.Keys == MetaDataKeys
    ensures p.metaData["discountType"] == DiscountTypeText(form.discountType)
    ensures p.metaData["discountAmount"] == form.discountAmount
    ensures p.metaData["minimumCartValue"] == form.minimumCartValue
    ensures ParseArray(p.metaData["terms"]) == Some(form.terms)
  {
    ParseStringify(form.terms);
    CouponPayload(
      form.couponCode,
      form.oneTimeUse,
      form.expiryDate,
      NoOfUses(form.totalUses),
      map[
        "discountType" := DiscountTypeText(form.discountType),
        "discountAmount" := form.discountAmount,
        "minimumCartValue" := form.minimumCartValue,
        "terms" := StringifyArray(form.terms)])
  }

  /** Submitting the form as first rendered sends an empty code, a one-time coupon with 0
      uses, an empty date text, the "percentage" discount with empty amounts, and the two
      initial terms. */
  lemma UntouchedFormPayload()
    ensures var p := Payload(InitialForm);
            && p.code == "" && p.isOneTime && p.expiresOn == ""
            && p.noOfUses == Exact(0)
            && p.metaData["discountType"] == "percentage"
            && p.metaData["discountAmount"] == "" && p.metaData["minimumCartValue"] == ""
            && ParseArray(p.metaData["terms"]) == Some(InitialTerms)
  {
  }

  /** Forms that differ in their terms, discount fields, code or flag never produce the
      same payload. */
  lemma PayloadKeepsFormFields(f: Form, g: Form)
    requires Payload(f) == Payload(g)
    ensures f.terms == g.terms && f.couponCode == g.couponCode && f.oneTimeUse == g.oneTimeUse
    ensures f.discountType == g.discountType && f.discountAmount == g.discountAmount
    ensures f.minimumCartValue == g.minimumCartValue && f.expiryDate == g.expiryDate
  {
  }

  /** What one submission does: the instance slot afterwards, the request and payload
      sent, how `createCoupon` settled, and whether `onClose` ran. */
  datatype Submission = Submission(
    slot: Slot,
    request: Request,
    payload: CouponPayload,
    outcome: Result<string, ApiError>,
    closed: bool)

  /** `handleSubmit`: builds the payload, takes the client from `APISDK.getInstance()`
      (which constructs it from the stored token when none exists yet), awaits
      `createCoupon` with it (a POST of /coupon that resolves to the new coupon's `id`,
      read from the body by `id`), then calls `onClose`. A rejected `createCoupon` throws
      out of the handler before `onClose` is reached. */
  function HandleSubmit<B>(slot: Slot, storage: StoredToken, form: Form, resp: Response<B>, id: B -> string): (r: Submission)
    ensures r.payload == Payload(form)
    ensures r.slot.Some? && r.request == Request(POST, "/coupon", Authorization(r.slot.value))
    ensures slot.Some? ==> r.slot == slot
    ensures slot.None? ==>
      r.slot.value.accessToken == (if storage.Read? && Truthy(storage.item) then storage.item else None)
    ensures r.closed <==> resp.IsOk()
    ensures r.closed ==> r.outcome == Ok(id(resp.body))
    ensures !r.closed ==> r.outcome.Err? && r.outcome.error.RequestFailed?
                          && ReadFailure("create coupon", r.outcome.error.message) == Some((resp.status, resp.statusText))
  {
    var p := Payload(form);
    var h := GetInstance(slot, Omitted, storage).holder;
    var e := Call(h, POST, "/coupon", "create coupon", resp);
    match e.outcome
    case Ok(body) => Submission(Some(h), e.sent.value, p, Ok(id(body)), true)
    case Err(err) => Submission(Some(h), e.sent.value, p, Err(err), false)
  }
}
