# Send-feature reducer and token price arithmetic

This project is a Dafny model of two parts of a mobile wallet.

- **The send reducer** (`packages/mobile/src/send/reducers.ts`). It is a pure,
  total transition function over the send feature's state. The state holds:
  - the in-flight flag `isSending`;
  - a most-recent-first list of recent recipients, de-duplicated by a
    recipient equivalence test and capped at eight;
  - a ledger of the last 24 hours of payments, pruned only when a payment
    succeeds;
  - the invite-reward feature-flag values, the last-used currency and the
    send-to-address warning toggle.
- **The token price hooks** (`packages/mobile/src/tokens/hooks.ts`). These
  convert between local currency, US dollars and tokens using each token's
  optional USD price and the local-currency exchange rate.

Modules:

- `Wrappers` (`wrappers.dfy`): `Option`, for JavaScript's `undefined`/`null`.
- `Seqs` (`seqs.dfy`): `Filter` (`Array.prototype.filter`) and `Take`
  (`slice(0, n)`). It also has the subsequence relation, and proves that
  `Filter` is the unique longest subsequence whose elements all pass the test.
- `SendReducer` (`send_reducer.dfy`): `State`, `Action` (one constructor per
  `switch` arm plus `Other` for everything else), `InitialState`,
  `StoreLatestRecent`, `RecordPayment` and the reducer `Step`. It also has a
  `Writes` table of the fields each action may change.
- `SendProperties` (`send_properties.dfy`): what each action does. It also
  proves the recent-recipient invariant over whole runs of dispatched actions.
- `TokenHooks` (`token_hooks.dfy`): the conversions and the lemmas relating
  them: round trips, composition, and preservation of dollar value.

The reducer's collaborators are parameters, collected in `Env`:

- `areRecipientsEquivalent` is `equivalent: (R, R) -> bool`, over an
  arbitrary recipient type `R`;
- `timeDeltaInHours(now, t)` is `hoursBetween: (int, int) -> real`;
- `Date.now()` is `now`.

The hooks take the data they would read from the store as inputs:

- the address-keyed token map;
- the token list;
- the dollar exchange rate.

Amounts and prices are exact `real`s. A present price has the type `Price`, a
non-zero real.

## Model

| member | source | states |
|---|---|---|
| SendReducer.Step | packages/mobile/src/send/reducers.ts:41-98 | every action changes only the fields its row of the `Writes` table names (e.g. a failure only `isSending`, an unknown action nothing) |
| SendReducer.InitialState | packages/mobile/src/send/reducers.ts:30-39 | the store starts idle, with no recipients or payments, dollar currency, the warning shown and the invite-reward fields from the flag defaults |
| SendReducer.StoreLatestRecent | packages/mobile/src/send/reducers.ts:100-112 | the new recipient list is non-empty, has at most eight entries and at most one more than before, starts with the submitted recipient, and holds no later entry equivalent to it |
| SendReducer.Restore | packages/mobile/src/send/reducers.ts:48-50 | the snapshot spread over the state takes every field the snapshot carries and keeps every field it does not |
| Seqs.Take | packages/mobile/src/send/reducers.ts:106 | `slice(0, n)` returns a prefix of its input of length `min(n, length)` |
| Seqs.Filter | packages/mobile/src/send/reducers.ts:103-105 | `filter` returns no more elements than its input, all of which pass the test (order, membership and counts are the `Filter…` lemmas below) |
| SendReducer.RecordPayment | packages/mobile/src/send/reducers.ts:61-72 | the ledger after a success grows by at most one, ends with `{now, amount}`, and every earlier entry is less than 24 hours old |
| SendProperties.SendStoresRecipient | packages/mobile/src/send/reducers.ts:55-60 | after either send action `isSending` is true; the list is the recipient followed by the first seven old entries not equivalent to it; that tail keeps old order and contains only old entries; nothing else changes |
| SendProperties.SendKeepsPairwiseNonEquivalent | packages/mobile/src/send/reducers.ts:101-106 | with a symmetric equivalence, a list without equivalent pairs stays without them after a send |
| SendProperties.SendOfNewRecipient | packages/mobile/src/send/reducers.ts:101-106 | a recipient equivalent to no stored one is pushed in front, and once eight are stored the oldest is dropped |
| SendProperties.SendOfKnownRecipient | packages/mobile/src/send/reducers.ts:101-106 | sending to a recipient equivalent to a stored one never grows the list |
| SendProperties.SendIdempotent | packages/mobile/src/send/reducers.ts:55-60 | sending twice to a self-equivalent recipient gives the state after one send |
| SendProperties.PaymentSuccessRecords | packages/mobile/src/send/reducers.ts:61-72 | a success clears `isSending`; the ledger is exactly the old entries under 24 hours, in old order, then the new payment; its length is at most old + 1; nothing else changes |
| SendProperties.StalePaymentPurged | packages/mobile/src/send/reducers.ts:64-66 | with hours computed from milliseconds, a 25-hour-old entry is dropped and only the new payment remains |
| SendProperties.RecentPaymentKept | packages/mobile/src/send/reducers.ts:64-71 | a 1-hour-old entry is kept, oldest first, ahead of the new payment |
| SendProperties.PaymentFailureClearsSending | packages/mobile/src/send/reducers.ts:73-77 | a failure sets `isSending` false and changes nothing else |
| SendProperties.FeatureFlagsOverwrite | packages/mobile/src/send/reducers.ts:78-84 | a flag update sets exactly the three invite-reward fields to the flag values |
| SendProperties.LastUsedCurrencyOverwrite | packages/mobile/src/send/reducers.ts:85-89 | a currency update sets only `lastUsedCurrency` |
| SendProperties.ShowWarningOverwrite | packages/mobile/src/send/reducers.ts:90-94 | a warning update sets only `showSendToAddressWarning` |
| SendProperties.OtherIsIdentity | packages/mobile/src/send/reducers.ts:95-96 | an unrecognised action returns the state unchanged |
| SendProperties.RehydrateRestores | packages/mobile/src/send/reducers.ts:46-53 | a restore always yields `isSending == false`, takes each field the snapshot carries and keeps every field it does not |
| SendProperties.OverwriteIdempotent | packages/mobile/src/send/reducers.ts:46-96 | every action other than a send or a success is idempotent |
| SendProperties.InitialStateValid | packages/mobile/src/send/reducers.ts:30-39 | the initial state satisfies the recipient-list invariant |
| SendProperties.StepPreservesValid | packages/mobile/src/send/reducers.ts:41-98 | with a symmetric equivalence and valid restored snapshots, every action keeps the list at most eight long and free of equivalent pairs |
| SendProperties.RunPreservesValid | packages/mobile/src/send/reducers.ts:41-112 | the invariant holds after any sequence of dispatched actions from the initial state |
| SendProperties.FilterKeepsPairwise | packages/mobile/src/send/reducers.ts:103-105 | filtering a list without equivalent pairs leaves a list without equivalent pairs |
| Seqs.FilterIsSubsequence | packages/mobile/src/send/reducers.ts:103-105 | a filter keeps order and adds nothing: its result is a subsequence of its input |
| Seqs.FilterUnique | packages/mobile/src/send/reducers.ts:103-105 | the filter is the only longest subsequence whose elements all pass the test |
| Seqs.FilterMembership | packages/mobile/src/send/reducers.ts:64-66 | an element is kept exactly when it occurs in the input and passes the test |
| Seqs.FilterCount | packages/mobile/src/send/reducers.ts:64-66 | a passing element is kept as often as it occurs; a failing one never |
| TokenHooks.TokenInfoAt | packages/mobile/src/tokens/hooks.ts:8-11 | the lookup succeeds exactly for known addresses and returns the stored info |
| TokenHooks.UsdPriceAt | packages/mobile/src/tokens/hooks.ts:22-23 | a price is present exactly when the address is known and its token has a price, and it is that token's `usdPrice` |
| TokenHooks.IndexOfSymbol | packages/mobile/src/tokens/hooks.ts:13-16 | the index found is the first whose symbol matches; none exactly when no token matches |
| TokenHooks.TokenInfoBySymbol | packages/mobile/src/tokens/hooks.ts:13-16 | returns the first token in list order with the symbol, or none exactly when no token has it |
| TokenHooks.LocalToTokenAmount | packages/mobile/src/tokens/hooks.ts:18-30 | null exactly when the token price or the exchange rate is missing; otherwise a token amount whose value at price and rate is the local amount |
| TokenHooks.TokenToLocalAmount | packages/mobile/src/tokens/hooks.ts:32-44 | null exactly when the token price or the exchange rate is missing; otherwise a local amount that divides back to the token amount |
| TokenHooks.AmountAsUsd | packages/mobile/src/tokens/hooks.ts:46-52 | null exactly when the token has no price; otherwise a dollar value that divides back to the amount |
| TokenHooks.ConvertBetweenTokens | packages/mobile/src/tokens/hooks.ts:54-66 | null exactly when either token lacks a price; otherwise the new amount has the same dollar value as the old |
| TokenHooks.LocalTokenRoundTrip | packages/mobile/src/tokens/hooks.ts:18-44 | converting local to token and back returns the local amount |
| TokenHooks.TokenLocalRoundTrip | packages/mobile/src/tokens/hooks.ts:18-44 | converting token to local and back returns the token amount |
| TokenHooks.TokenToLocalViaUsd | packages/mobile/src/tokens/hooks.ts:32-52 | the local value is defined exactly when the dollar value is, and equals it times the exchange rate |
| TokenHooks.ConvertToSelf | packages/mobile/src/tokens/hooks.ts:54-66 | converting into the same priced token returns the amount |
| TokenHooks.ConvertRoundTrip | packages/mobile/src/tokens/hooks.ts:54-66 | converting there and back returns the amount |
| TokenHooks.ConvertCompose | packages/mobile/src/tokens/hooks.ts:54-66 | converting through an intermediate token equals converting directly |
| TokenHooks.ConvertKeepsUsdValue | packages/mobile/src/tokens/hooks.ts:46-66 | the converted amount has the same dollar value as the original |

## Left out

- The internals of `areRecipientsEquivalent`, `timeDeltaInHours` and `getRehydratePayload` are not part of this model. The first two are the parameters `equivalent` and `hoursBetween`. The third is a `Payload` with an optional value per state field.
- Properties that depend on the equivalence test take only the assumption they need. Pairwise non-equivalence needs symmetry. `SendIdempotent` needs the one recipient to be equivalent to itself.
- The recent-recipient invariant holds only when restored snapshots are themselves valid. A restore copies whatever list the snapshot holds.
- Persisted keys that are not fields of `State` are not modelled; the spread would copy them into the returned object as well.
- The `recipientCache: {}` written on restore is not a field of `State`, so it is not modelled.
- A payload key present with the value `undefined` is not modelled; the spread would copy the `undefined`.
- The values of `FEATURE_FLAG_DEFAULTS` are not part of this model. `InitialState` takes them as a parameter.
- The members of the `Currency` enum are not part of this model. `Celo`, `Dollar` and `Euro` stand in for them.
- `BigNumber.toNumber()` narrowing of the payment amount is not modelled. The amount is recorded exactly.
- BigNumber's rounding in division and JavaScript floating point are not modelled. All arithmetic is on exact reals.
- Zero prices and zero exchange rates are excluded by the `Price` type. The `!price` guard's effect on a zero BigNumber depends on a type that is not part of this model.
- `useSelector` plumbing is not modelled. The token map, the token list and the dollar exchange rate are explicit inputs.
- `QuizzBottom.tsx`, `ShortAccountLink.tsx` and `CommentSection.tsx` are not modelled. They are presentation, translation and clipboard code.
- `bigQuery.ts` is not modelled. It is network I/O to an analytics service.
