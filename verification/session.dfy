/** The session holder: the one process-wide `APISDK` instance and the bearer token it
    carries (libs/api/index.ts, `getInstance` and `setAccessToken`). */
module Session {
  import opened Wrappers
  import opened JsValues

  /** The argument of `getInstance(accessToken?: string | null)`: left out (undefined),
      or given, as a string or as null. */
  datatype TokenArg = Omitted | Given(token: Option<string>)

  /** What the first `getInstance` gets from browser storage, when it looks there: there
      is no window (server-side rendering), reading storage throws (the error is logged
      and swallowed), or `localStorage.getItem("access_token")` returns a string or null. */
  datatype StoredToken = NoWindow | ReadFails | Read(item: Option<string>)

  /** The client instance; its only state is the bearer token. */
  datatype Holder = Holder(accessToken: Option<string>)

  /** The static instance slot: empty until the first `getInstance`. */
  type Slot = Option<Holder>

  /** What one `getInstance` call does: the instance it returns, which is also what the
      slot holds afterwards, and whether it ran the constructor. */
  datatype Access = Access(holder: Holder, created: bool)

  /** `setAccessToken`: replaces the token, with no validation. */
  function SetAccessToken(h: Holder, token: Option<string>): (r: Holder)
    ensures r.accessToken == token
  {
    h.(accessToken := token)
  }

  /** The token a first `getInstance` has in hand before `|| null`: the argument when one
      is given, otherwise the stored token when storage was read and the stored value is
      truthy, otherwise nothing. */
  function SeedToken(arg: TokenArg, storage: StoredToken): Option<string>
  {
    match arg
    case Given(t) => t
    case Omitted => if storage.Read? && Truthy(storage.item) then storage.item else None
  }

  /** `getInstance`: an existing instance is returned (its token overwritten exactly when
      an argument is given); otherwise one is constructed, seeded with `token || null`. */
  function GetInstance(slot: Slot, arg: TokenArg, storage: StoredToken): (r: Access)
    ensures r.created <==> slot.None?
    ensures slot.Some? && arg.Omitted? ==> r.holder == slot.value
    ensures slot.Some? && arg.Given? ==> r.holder.accessToken == arg.token
    ensures slot.None? && arg.Given? ==> (r.holder.accessToken.Some? <==> Truthy(arg.token))
    ensures slot.None? && arg.Omitted? ==>
      (r.holder.accessToken.Some? <==> storage.Read? && Truthy(storage.item))
    ensures slot.None? && r.holder.accessToken.Some? ==>
      r.holder.accessToken == (if arg.Given? then arg.token else storage.item)
  {
    match slot
    case Some(h) => Access(if arg.Given? then SetAccessToken(h, arg.token) else h, false)
    case None => Access(Holder(OrNull(SeedToken(arg, storage))), true)
  }

  /** A freshly constructed instance never holds the empty token: `|| null` collapses it.
      Only a later `getInstance("")` or `setAccessToken("")` can store it. */
  lemma FreshTokenNeverEmpty(arg: TokenArg, storage: StoredToken)
    ensures GetInstance(None, arg, storage).holder.accessToken != Some("")
  {
  }

  /** Storage is consulted only while the slot is empty: once an instance exists, what
      storage holds makes no difference to `getInstance`. */
  lemma StorageIgnoredOnceCreated(h: Holder, arg: TokenArg, s1: StoredToken, s2: StoredToken)
    ensures GetInstance(Some(h), arg, s1) == GetInstance(Some(h), arg, s2)
  {
  }

  /** Calling `getInstance()` twice without arguments returns the same instance both
      times, and only the first call constructs. */
  lemma TwiceWithoutArgument(storage: StoredToken, later: StoredToken)
    ensures var first := GetInstance(None, Omitted, storage);
            var second := GetInstance(Some(first.holder), Omitted, later);
            first.created && !second.created && second.holder == first.holder
  {
  }

  /** `getInstance(t)` followed by `getInstance()` keeps the first call's token. */
  lemma ExplicitThenOmitted(t: Option<string>, storage: StoredToken, later: StoredToken)
    ensures var first := GetInstance(None, Given(t), storage);
            var second := GetInstance(Some(first.holder), Omitted, later);
            second.holder == first.holder && second.holder.accessToken == OrNull(t)
  {
  }

  /** A sequence of `getInstance` calls, each with its argument and what storage would
      give it; the final slot and how many instances were constructed. */
  function Run(slot: Slot, calls: seq<(TokenArg, StoredToken)>): (r: (Slot, nat))
    decreases |calls|
  {
    if calls == [] then (slot, 0)
    else
      var a := GetInstance(slot, calls[0].0, calls[0].1);
      var (final, n) := Run(Some(a.holder), calls[1..]);
      (final, n + (if a.created then 1 else 0))
  }

  /** The token an existing instance ends with after the calls: that of the last call that
      gave an argument, exactly as given; `current` when none did. */
  function LastGiven(calls: seq<(TokenArg, StoredToken)>, current: Option<string>): Option<string>
    decreases |calls|
  {
    if calls == [] then current
    else if calls[|calls| - 1].0.Given? then calls[|calls| - 1].0.token
    else LastGiven(calls[..|calls| - 1], current)
  }

  /** However many calls run, at most one instance is ever constructed: exactly one when
      the slot starts empty and there is at least one call; and the slot is never emptied. */
  lemma {:induction false} RunConstructsAtMostOnce(slot: Slot, calls: seq<(TokenArg, StoredToken)>)
    ensures Run(slot, calls).1 == (if slot.None? && |calls| > 0 then 1 else 0)
    ensures slot.Some? || |calls| > 0 ==> Run(slot, calls).0.Some?
    decreases |calls|
  {
    if calls != [] {
      RunConstructsAtMostOnce(Some(GetInstance(slot, calls[0].0, calls[0].1).holder), calls[1..]);
    }
  }

  /** Once an instance exists, its token after any calls is the last token given, exactly
      (no `|| null` on this path), or the token it had when no call gave one. */
  lemma {:induction false} RunKeepsLastGiven(h: Holder, calls: seq<(TokenArg, StoredToken)>)
    ensures Run(Some(h), calls).0 == Some(Holder(LastGiven(calls, h.accessToken)))
    decreases |calls|
  {
    if calls != [] {
      var a := GetInstance(Some(h), calls[0].0, calls[0].1);
      RunKeepsLastGiven(a.holder, calls[1..]);
      LastGivenPrefix(calls[1..], calls[0], h.accessToken);
      assert [calls[0]] + calls[1..] == calls;
    }
  }

  lemma {:induction false} LastGivenPrefix(rest: seq<(TokenArg, StoredToken)>, c: (TokenArg, StoredToken), current: Option<string>)
    ensures LastGiven([c] + rest, current)
            == LastGiven(rest, if c.0.Given? then c.0.token else current)
    decreases |rest|
  {
    if rest == [] {
      assert [c] + rest == [c];
      assert [c][..0] == [];
    } else {
      var init := rest[..|rest| - 1];
      assert ([c] + rest)[..|rest|] == [c] + init;
      LastGivenPrefix(init, c, current);
    }
  }
}
