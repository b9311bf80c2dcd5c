/** The state of the wallet's send feature and its reducer: a pure, total
    transition function `(State, Action) -> State`.

    The recipient type is a parameter `R`. What the reducer reads from its
    surroundings is passed in an `Env`: the recipient equivalence test, the
    "hours between two epoch-millisecond timestamps" function and the current
    time. */
module SendReducer {
  import opened Wrappers
  import opened Seqs

  /** How many recent recipients are kept. */
  const RecentRecipientsToStore: nat := 8

  /** Payments at least this many hours old are dropped from the ledger. */
  const PaymentWindowHours: real := 24.0

  datatype Currency = Celo | Dollar | Euro

  /** One entry of the 24-hour payment ledger; `timestamp` is epoch milliseconds. */
  datatype PaymentInfo = PaymentInfo(timestamp: int, amount: real)

  /** The invite-reward values delivered by the feature-flag service. */
  datatype FeatureFlags = FeatureFlags(
    inviteRewardsEnabled: bool,
    inviteRewardCusd: real,
    inviteRewardWeeklyLimit: real)

  datatype State<R> = State(
    isSending: bool,
    recentRecipients: seq<R>,
    recentPayments: seq<PaymentInfo>,
    inviteRewardsEnabled: bool,
    inviteRewardCusd: real,
    inviteRewardWeeklyLimit: real,
    lastUsedCurrency: Currency,
    showSendToAddressWarning: bool)

  /** The persisted slice of the send state restored at start-up; a field is
      `None` when the snapshot does not carry it. */
  datatype Payload<R> = Payload(
    isSending: Option<bool>,
    recentRecipients: Option<seq<R>>,
    recentPayments: Option<seq<PaymentInfo>>,
    inviteRewardsEnabled: Option<bool>,
    inviteRewardCusd: Option<real>,
    inviteRewardWeeklyLimit: Option<real>,
    lastUsedCurrency: Option<Currency>,
    showSendToAddressWarning: Option<bool>)

  /** One constructor per action kind the reducer matches on; `Other` stands
      for every action it does not recognise. */
  datatype Action<R> =
    | Rehydrate(payload: Payload<R>)
    | SendPaymentOrInvite(recipient: R)
    | SendPaymentOrInviteLegacy(recipient: R)
    | SendPaymentOrInviteSuccess(amount: real)
    | SendPaymentOrInviteFailure
    | UpdateFeatureFlags(flags: FeatureFlags)
    | UpdateLastUsedCurrency(currency: Currency)
    | SetShowWarning(showWarning: bool)
    | Other
  {
    /** The current and the legacy send action behave identically. */
    predicate IsSend() {
      SendPaymentOrInvite? || SendPaymentOrInviteLegacy?
    }
  }

  /** The reducer's collaborators: `equivalent` decides whether two recipients
      are the same payee, `hoursBetween(now, t)` is the time from `t` to `now`
      in hours, and `now` is the current time in epoch milliseconds. */
  datatype Env<!R> = Env(
    equivalent: (R, R) -> bool,
    hoursBetween: (int, int) -> real,
    now: int)

  /** The fields of `State`, for stating what a transition may write. */
  datatype Field =
    | IsSendingField
    | RecentRecipientsField
    | RecentPaymentsField
    | InviteRewardsEnabledField
    | InviteRewardCusdField
    | InviteRewardWeeklyLimitField
    | LastUsedCurrencyField
    | ShowSendToAddressWarningField

  ghost predicate AgreeOn<R>(s: State<R>, t: State<R>, f: Field) {
    match f
    case IsSendingField => s.isSending == t.isSending
    case RecentRecipientsField => s.recentRecipients == t.recentRecipients
    case RecentPaymentsField => s.recentPayments == t.recentPayments
    case InviteRewardsEnabledField => s.inviteRewardsEnabled == t.inviteRewardsEnabled
    case InviteRewardCusdField => s.inviteRewardCusd == t.inviteRewardCusd
    case InviteRewardWeeklyLimitField => s.inviteRewardWeeklyLimit == t.inviteRewardWeeklyLimit
    case LastUsedCurrencyField => s.lastUsedCurrency == t.lastUsedCurrency
    case ShowSendToAddressWarningField => s.showSendToAddressWarning == t.showSendToAddressWarning
  }

  /** `s` and `t` agree on every field outside `fs`. */
  ghost predicate AgreeExcept<R>(s: State<R>, t: State<R>, fs: set<Field>) {
    forall f :: f !in fs ==> AgreeOn(s, t, f)
  }

  /** The fields a payload carries. */
  function PresentFields<R>(p: Payload<R>): set<Field> {
    (if p.isSending.Some? then {IsSendingField} else {})
    + (if p.recentRecipients.Some? then {RecentRecipientsField} else {})
    + (if p.recentPayments.Some? then {RecentPaymentsField} else {})
    + (if p.inviteRewardsEnabled.Some? then {InviteRewardsEnabledField} else {})
    + (if p.inviteRewardCusd.Some? then {InviteRewardCusdField} else {})
    + (if p.inviteRewardWeeklyLimit.Some? then {InviteRewardWeeklyLimitField} else {})
    + (if p.lastUsedCurrency.Some? then {LastUsedCurrencyField} else {})
    + (if p.showSendToAddressWarning.Some? then {ShowSendToAddressWarningField} else {})
  }

  /** The table of which fields each kind of action is allowed to write. */
  function Writes<R>(a: Action<R>): set<Field> {
    match a
    case Rehydrate(p) => PresentFields(p) + {IsSendingField}
    case SendPaymentOrInvite(_) => {IsSendingField, RecentRecipientsField}
    case SendPaymentOrInviteLegacy(_) => {IsSendingField, RecentRecipientsField}
    case SendPaymentOrInviteSuccess(_) => {IsSendingField, RecentPaymentsField}
    case SendPaymentOrInviteFailure => {IsSendingField}
    case UpdateFeatureFlags(_) =>
      {InviteRewardsEnabledField, InviteRewardCusdField, InviteRewardWeeklyLimitField}
    case UpdateLastUsedCurrency(_) => {LastUsedCurrencyField}
    case SetShowWarning(_) => {ShowSendToAddressWarningField}
    case Other => {}
  }

  /** The state the store starts from; the invite-reward fields come from the
      feature-flag defaults. */
  function InitialState<R>(defaults: FeatureFlags): (s: State<R>)
    ensures !s.isSending
    ensures s.recentRecipients == [] && s.recentPayments == []
    ensures s.inviteRewardsEnabled == defaults.inviteRewardsEnabled
    ensures s.inviteRewardCusd == defaults.inviteRewardCusd
    ensures s.inviteRewardWeeklyLimit == defaults.inviteRewardWeeklyLimit
    ensures s.lastUsedCurrency == Dollar
    ensures s.showSendToAddressWarning
  {
    State(false, [], [], defaults.inviteRewardsEnabled, defaults.inviteRewardCusd,
          defaults.inviteRewardWeeklyLimit, Dollar, true)
  }

  /** The filter predicate of the recent-recipient update: keep `x` unless it
      is equivalent to the newly submitted recipient `r`. */
  function NotEquivalentTo<R>(equivalent: (R, R) -> bool, r: R): R -> bool {
    x => !equivalent(r, x)
  }

  /** The new recent-recipient list after submitting to `r`: `r` in front,
      then the old entries not equivalent to `r`, cut to the first eight. */
  function StoreLatestRecent<R(!new)>(equivalent: (R, R) -> bool, recents: seq<R>, r: R): (rs: seq<R>)
    ensures 0 < |rs| <= RecentRecipientsToStore
    ensures rs[0] == r
    ensures forall i :: 1 <= i < |rs| ==> !equivalent(r, rs[i])
    ensures |rs| <= |recents| + 1
  {
    Take([r] + Filter(NotEquivalentTo(equivalent, r), recents), RecentRecipientsToStore)
  }

  /** The ledger filter: keep a payment made less than 24 hours before `now`. */
  function IsRecent(hoursBetween: (int, int) -> real, now: int): PaymentInfo -> bool {
    (p: PaymentInfo) => hoursBetween(now, p.timestamp) < PaymentWindowHours
  }

  /** The ledger after a successful payment of `amount` at `now`. */
  function RecordPayment(hoursBetween: (int, int) -> real, now: int, payments: seq<PaymentInfo>, amount: real)
    : (ps: seq<PaymentInfo>)
    ensures 0 < |ps| <= |payments| + 1
    ensures ps[|ps| - 1] == PaymentInfo(now, amount)
    ensures forall i :: 0 <= i < |ps| - 1 ==> hoursBetween(now, ps[i].timestamp) < PaymentWindowHours
  {
    Filter(IsRecent(hoursBetween, now), payments) + [PaymentInfo(now, amount)]
  }

  /** The persisted fields spread over the current state: every field the
      snapshot carries is taken from it, every other field is kept. */
  function Restore<R>(s: State<R>, p: Payload<R>): (r: State<R>)
    ensures p.isSending.Some? ==> r.isSending == p.isSending.value
    ensures p.isSending.None? ==> r.isSending == s.isSending
    ensures p.recentRecipients.Some? ==> r.recentRecipients == p.recentRecipients.value
    ensures p.recentRecipients.None? ==> r.recentRecipients == s.recentRecipients
    ensures p.recentPayments.Some? ==> r.recentPayments == p.recentPayments.value
    ensures p.recentPayments.None? ==> r.recentPayments == s.recentPayments
    ensures p.inviteRewardsEnabled.Some? ==> r.inviteRewardsEnabled == p.inviteRewardsEnabled.value
    ensures p.inviteRewardsEnabled.None? ==> r.inviteRewardsEnabled == s.inviteRewardsEnabled
    ensures p.inviteRewardCusd.Some? ==> r.inviteRewardCusd == p.inviteRewardCusd.value
    ensures p.inviteRewardCusd.None? ==> r.inviteRewardCusd == s.inviteRewardCusd
    ensures p.inviteRewardWeeklyLimit.Some? ==> r.inviteRewardWeeklyLimit == p.inviteRewardWeeklyLimit.value
    ensures p.inviteRewardWeeklyLimit.None? ==> r.inviteRewardWeeklyLimit == s.inviteRewardWeeklyLimit
    ensures p.lastUsedCurrency.Some? ==> r.lastUsedCurrency == p.lastUsedCurrency.value
    ensures p.lastUsedCurrency.None? ==> r.lastUsedCurrency == s.lastUsedCurrency
    ensures p.showSendToAddressWarning.Some? ==> r.showSendToAddressWarning == p.showSendToAddressWarning.value
    ensures p.showSendToAddressWarning.None? ==> r.showSendToAddressWarning == s.showSendToAddressWarning
  {
    State(
      p.isSending.GetOr(s.isSending),
      p.recentRecipients.GetOr(s.recentRecipients),
      p.recentPayments.GetOr(s.recentPayments),
      p.inviteRewardsEnabled.GetOr(s.inviteRewardsEnabled),
      p.inviteRewardCusd.GetOr(s.inviteRewardCusd),
      p.inviteRewardWeeklyLimit.GetOr(s.inviteRewardWeeklyLimit),
      p.lastUsedCurrency.GetOr(s.lastUsedCurrency),
      p.showSendToAddressWarning.GetOr(s.showSendToAddressWarning))
  }

  /** The reducer. Every action writes only the fields `Writes` allows. */
  function Step<R(!new)>(env: Env<R>, s: State<R>, a: Action<R>): (s': State<R>)
    ensures AgreeExcept(s, s', Writes(a))
  {
    match a
    case Rehydrate(p) => Restore(s, p).(isSending := false)
    case SendPaymentOrInvite(r) =>
      s.(recentRecipients := StoreLatestRecent(env.equivalent, s.recentRecipients, r), isSending := true)
    case SendPaymentOrInviteLegacy(r) =>
      s.(recentRecipients := StoreLatestRecent(env.equivalent, s.recentRecipients, r), isSending := true)
    case SendPaymentOrInviteSuccess(amount) =>
      s.(isSending := false,
         recentPayments := RecordPayment(env.hoursBetween, env.now, s.recentPayments, amount))
    case SendPaymentOrInviteFailure => s.(isSending := false)
    case UpdateFeatureFlags(flags) =>
      s.(inviteRewardsEnabled := flags.inviteRewardsEnabled,
         inviteRewardCusd := flags.inviteRewardCusd,
         inviteRewardWeeklyLimit := flags.inviteRewardWeeklyLimit)
    case UpdateLastUsedCurrency(c) => s.(lastUsedCurrency := c)
    case SetShowWarning(b) => s.(showSendToAddressWarning := b)
    case Other => s
  }

  /** An action together with the time at which the store dispatched it. */
  datatype Dispatch<R> = Dispatch(action: Action<R>, now: int)

  /** The state after the store dispatches `ds` in order, starting from `s`. */
  function Run<R(!new)>(
    equivalent: (R, R) -> bool, hoursBetween: (int, int) -> real,
    s: State<R>, ds: seq<Dispatch<R>>): State<R>
    decreases |ds|
  {
    if |ds| == 0 then s
    else
      var d := ds[|ds| - 1];
      Step(Env(equivalent, hoursBetween, d.now), Run(equivalent, hoursBetween, s, ds[..|ds| - 1]), d.action)
  }
}
