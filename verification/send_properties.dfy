/** Properties of the send reducer: what each kind of action does to the
    state, the recent-recipient invariant, and the lazily pruned payment
    ledger. */
module SendProperties {
  import opened Wrappers
  import opened Seqs
  import opened SendReducer

  ghost predicate Symmetric<R(!new)>(equivalent: (R, R) -> bool) {
    forall x, y :: equivalent(x, y) == equivalent(y, x)
  }

  /** No two entries at different positions are equivalent. */
  ghost predicate PairwiseNonEquivalent<R>(equivalent: (R, R) -> bool, xs: seq<R>) {
    forall i, j :: 0 <= i < |xs| && 0 <= j < |xs| && i != j ==> !equivalent(xs[i], xs[j])
  }

  /** The invariant the recent-recipient list keeps: at most eight entries,
      no two of them equivalent. */
  ghost predicate Valid<R>(equivalent: (R, R) -> bool, s: State<R>) {
    && |s.recentRecipients| <= RecentRecipientsToStore
    && PairwiseNonEquivalent(equivalent, s.recentRecipients)
  }

  /** A restored snapshot that carries recipients carries a valid list. */
  ghost predicate ValidPayload<R>(equivalent: (R, R) -> bool, p: Payload<R>) {
    p.recentRecipients.Some? ==>
      && |p.recentRecipients.value| <= RecentRecipientsToStore
      && PairwiseNonEquivalent(equivalent, p.recentRecipients.value)
  }

  // ---------------------------------------------------------------------------
  // Recent recipients

  lemma {:induction false} FilterKeepsPairwise<R(!new)>(equivalent: (R, R) -> bool, p: R -> bool, xs: seq<R>)
    requires PairwiseNonEquivalent(equivalent, xs)
    ensures PairwiseNonEquivalent(equivalent, Filter(p, xs))
    decreases |xs|
  {
    if |xs| > 0 {
      var rest := xs[1..];
      assert PairwiseNonEquivalent(equivalent, rest) by {
        forall i, j | 0 <= i < |rest| && 0 <= j < |rest| && i != j
          ensures !equivalent(rest[i], rest[j])
        {
          assert rest[i] == xs[i + 1] && rest[j] == xs[j + 1];
        }
      }
      FilterKeepsPairwise(equivalent, p, rest);
      if p(xs[0]) {
        var fs := Filter(p, rest);
        var r := [xs[0]] + fs;
        forall k | 0 <= k < |fs|
          ensures !equivalent(xs[0], fs[k]) && !equivalent(fs[k], xs[0])
        {
          FilterMembership(p, rest, fs[k]);
          var j :| 0 <= j < |rest| && rest[j] == fs[k];
          assert xs[j + 1] == fs[k];
        }
        forall i, j | 0 <= i < |r| && 0 <= j < |r| && i != j
          ensures !equivalent(r[i], r[j])
        {
          if i > 0 && j > 0 {
            assert r[i] == fs[i - 1] && r[j] == fs[j - 1];
          } else if i == 0 {
            assert r[j] == fs[j - 1];
          } else {
            assert r[i] == fs[i - 1];
          }
        }
      }
    }
  }

  /** A send puts the recipient in front, keeps at most eight entries, and
      follows it with the old entries that are not equivalent to it, in their
      old order and with nothing new among them. */
  lemma SendStoresRecipient<R(!new)>(env: Env<R>, s: State<R>, a: Action<R>)
    requires a.IsSend()
    ensures var s' := Step(env, s, a);
      var rs := s'.recentRecipients;
      && s'.isSending
      && 0 < |rs| <= RecentRecipientsToStore
      && rs[0] == a.recipient
      && (forall i :: 1 <= i < |rs| ==> !env.equivalent(a.recipient, rs[i]))
      && rs[1..] == Take(Filter(NotEquivalentTo(env.equivalent, a.recipient), s.recentRecipients),
                         RecentRecipientsToStore - 1)
      && IsSubsequence(rs[1..], s.recentRecipients)
      && (forall i :: 1 <= i < |rs| ==> rs[i] in s.recentRecipients)
      && AgreeExcept(s, s', {IsSendingField, RecentRecipientsField})
  {
    var p := NotEquivalentTo(env.equivalent, a.recipient);
    var fs := Filter(p, s.recentRecipients);
    var rs := Step(env, s, a).recentRecipients;
    assert rs[1..] == fs[..|rs| - 1];
    FilterIsSubsequence(p, s.recentRecipients);
    PrefixOfSubsequence(fs, s.recentRecipients, |rs| - 1);
    forall i | 1 <= i < |rs|
      ensures rs[i] in s.recentRecipients
    {
      assert rs[i] == fs[i - 1];
      FilterMembership(p, s.recentRecipients, rs[i]);
    }
  }

  /** With a symmetric equivalence, a send keeps the recipient list free of
      equivalent pairs. */
  lemma SendKeepsPairwiseNonEquivalent<R(!new)>(env: Env<R>, s: State<R>, a: Action<R>)
    requires a.IsSend()
    requires Symmetric(env.equivalent)
    requires PairwiseNonEquivalent(env.equivalent, s.recentRecipients)
    ensures PairwiseNonEquivalent(env.equivalent, Step(env, s, a).recentRecipients)
  {
    var r := a.recipient;
    var fs := Filter(NotEquivalentTo(env.equivalent, r), s.recentRecipients);
    FilterKeepsPairwise(env.equivalent, NotEquivalentTo(env.equivalent, r), s.recentRecipients);
    var rs := Step(env, s, a).recentRecipients;
    forall i, j | 0 <= i < |rs| && 0 <= j < |rs| && i != j
      ensures !env.equivalent(rs[i], rs[j])
    {
      if i > 0 && j > 0 {
        assert rs[i] == fs[i - 1] && rs[j] == fs[j - 1];
      } else if i == 0 {
        assert rs[j] == fs[j - 1];
      } else {
        assert rs[i] == fs[i - 1];
        assert env.equivalent(rs[i], r) == env.equivalent(r, rs[i]);
      }
    }
  }

  /** A recipient equivalent to none of the stored ones is pushed in front and
      the oldest entry falls off once there are eight. */
  lemma SendOfNewRecipient<R(!new)>(env: Env<R>, s: State<R>, a: Action<R>)
    requires a.IsSend()
    requires forall i :: 0 <= i < |s.recentRecipients| ==> !env.equivalent(a.recipient, s.recentRecipients[i])
    ensures Step(env, s, a).recentRecipients == Take([a.recipient] + s.recentRecipients, RecentRecipientsToStore)
  {
    FilterKeepsAll(NotEquivalentTo(env.equivalent, a.recipient), s.recentRecipients);
  }

  /** Sending to a recipient equivalent to a stored one does not grow the list. */
  lemma SendOfKnownRecipient<R(!new)>(env: Env<R>, s: State<R>, a: Action<R>, k: nat)
    requires a.IsSend()
    requires k < |s.recentRecipients| && env.equivalent(a.recipient, s.recentRecipients[k])
    ensures |Step(env, s, a).recentRecipients| <= |s.recentRecipients|
  {
    FilterDropsFailing(NotEquivalentTo(env.equivalent, a.recipient), s.recentRecipients, k);
  }

  /** Sending twice to a recipient that is equivalent to itself leaves the
      state as after the first send. */
  lemma SendIdempotent<R(!new)>(env: Env<R>, s: State<R>, a: Action<R>)
    requires a.IsSend()
    requires env.equivalent(a.recipient, a.recipient)
    ensures Step(env, Step(env, s, a), a) == Step(env, s, a)
  {
    var r := a.recipient;
    var p := NotEquivalentTo(env.equivalent, r);
    var rs := Step(env, s, a).recentRecipients;
    var tail := rs[1..];
    assert rs == [r] + tail;
    FilterKeepsAll(p, tail);
    assert Filter(p, rs) == Filter(p, tail);
  }

  // ---------------------------------------------------------------------------
  // The payment ledger

  /** A successful payment clears the in-flight flag, keeps exactly the old
      ledger entries made less than 24 hours before `now`, in their order, and
      appends the new payment; nothing else changes. */
  lemma PaymentSuccessRecords<R(!new)>(env: Env<R>, s: State<R>, a: Action<R>)
    requires a.SendPaymentOrInviteSuccess?
    ensures var s' := Step(env, s, a);
      var ps := s'.recentPayments;
      && !s'.isSending
      && |ps| <= |s.recentPayments| + 1
      && ps == Filter(IsRecent(env.hoursBetween, env.now), s.recentPayments) + [PaymentInfo(env.now, a.amount)]
      && IsSubsequence(ps[..|ps| - 1], s.recentPayments)
      && (forall q :: q in ps[..|ps| - 1] <==>
            q in s.recentPayments && env.hoursBetween(env.now, q.timestamp) < PaymentWindowHours)
      && AgreeExcept(s, s', {IsSendingField, RecentPaymentsField})
  {
    var p := IsRecent(env.hoursBetween, env.now);
    var ps := Step(env, s, a).recentPayments;
    assert ps[..|ps| - 1] == Filter(p, s.recentPayments);
    FilterIsSubsequence(p, s.recentPayments);
    forall q
      ensures q in ps[..|ps| - 1] <==> q in s.recentPayments && env.hoursBetween(env.now, q.timestamp) < PaymentWindowHours
    {
      FilterMembership(p, s.recentPayments, q);
    }
  }

  /** The hours elapsed between two epoch-millisecond timestamps, one
      possible `hoursBetween`. */
  function HoursSinceMillis(now: int, t: int): real {
    (now - t) as real / 3600000.0
  }

  /** A payment 25 hours old is purged when a new payment succeeds. */
  lemma StalePaymentPurged<R(!new)>(equivalent: (R, R) -> bool, s: State<R>, now: int)
    requires s.recentPayments == [PaymentInfo(now - 25 * 3600000, 3.0)]
    ensures Step(Env(equivalent, HoursSinceMillis, now), s, SendPaymentOrInviteSuccess(5.0)).recentPayments
         == [PaymentInfo(now, 5.0)]
  {
    var p := IsRecent(HoursSinceMillis, now);
    assert (now - (now - 25 * 3600000)) as real == 25.0 * 3600000.0;
    assert HoursSinceMillis(now, now - 25 * 3600000) == 25.0;
    assert !p(s.recentPayments[0]);
    assert Filter(p, s.recentPayments) == Filter(p, s.recentPayments[1..]);
  }

  /** A payment one hour old stays, ahead of the new one. */
  lemma RecentPaymentKept<R(!new)>(equivalent: (R, R) -> bool, s: State<R>, now: int)
    requires s.recentPayments == [PaymentInfo(now - 3600000, 1.0)]
    ensures Step(Env(equivalent, HoursSinceMillis, now), s, SendPaymentOrInviteSuccess(3.0)).recentPayments
         == [PaymentInfo(now - 3600000, 1.0), PaymentInfo(now, 3.0)]
  {
    var p := IsRecent(HoursSinceMillis, now);
    assert (now - (now - 3600000)) as real == 3600000.0;
    assert HoursSinceMillis(now, now - 3600000) == 1.0;
    assert p(s.recentPayments[0]);
    assert Filter(p, s.recentPayments) == [s.recentPayments[0]] + Filter(p, s.recentPayments[1..]);
  }

  // ---------------------------------------------------------------------------
  // Field overwrites

  /** A failed payment only clears the in-flight flag. */
  lemma PaymentFailureClearsSending<R(!new)>(env: Env<R>, s: State<R>)
    ensures var s' := Step(env, s, SendPaymentOrInviteFailure);
      !s'.isSending && AgreeExcept(s, s', {IsSendingField})
  {
  }

  /** A feature-flag update overwrites exactly the three invite-reward fields. */
  lemma FeatureFlagsOverwrite<R(!new)>(env: Env<R>, s: State<R>, flags: FeatureFlags)
    ensures var s' := Step(env, s, UpdateFeatureFlags(flags));
      && s'.inviteRewardsEnabled == flags.inviteRewardsEnabled
      && s'.inviteRewardCusd == flags.inviteRewardCusd
      && s'.inviteRewardWeeklyLimit == flags.inviteRewardWeeklyLimit
      && AgreeExcept(s, s', {InviteRewardsEnabledField, InviteRewardCusdField, InviteRewardWeeklyLimitField})
  {
  }

  /** Choosing a currency overwrites only the last-used currency. */
  lemma LastUsedCurrencyOverwrite<R(!new)>(env: Env<R>, s: State<R>, c: Currency)
    ensures var s' := Step(env, s, UpdateLastUsedCurrency(c));
      s'.lastUsedCurrency == c && AgreeExcept(s, s', {LastUsedCurrencyField})
  {
  }

  /** Setting the warning overwrites only the warning flag. */
  lemma ShowWarningOverwrite<R(!new)>(env: Env<R>, s: State<R>, b: bool)
    ensures var s' := Step(env, s, SetShowWarning(b));
      s'.showSendToAddressWarning == b && AgreeExcept(s, s', {ShowSendToAddressWarningField})
  {
  }

  /** An unrecognised action returns the state unchanged. */
  lemma OtherIsIdentity<R(!new)>(env: Env<R>, s: State<R>)
    ensures Step(env, s, Other) == s
  {
  }

  /** A restore always leaves the state idle, takes every field the snapshot
      carries from it and keeps every other field. */
  lemma RehydrateRestores<R(!new)>(env: Env<R>, s: State<R>, p: Payload<R>)
    ensures var s' := Step(env, s, Rehydrate(p));
      && !s'.isSending
      && (p.recentRecipients.Some? ==> s'.recentRecipients == p.recentRecipients.value)
      && (p.recentPayments.Some? ==> s'.recentPayments == p.recentPayments.value)
      && (p.inviteRewardsEnabled.Some? ==> s'.inviteRewardsEnabled == p.inviteRewardsEnabled.value)
      && (p.inviteRewardCusd.Some? ==> s'.inviteRewardCusd == p.inviteRewardCusd.value)
      && (p.inviteRewardWeeklyLimit.Some? ==> s'.inviteRewardWeeklyLimit == p.inviteRewardWeeklyLimit.value)
      && (p.lastUsedCurrency.Some? ==> s'.lastUsedCurrency == p.lastUsedCurrency.value)
      && (p.showSendToAddressWarning.Some? ==> s'.showSendToAddressWarning == p.showSendToAddressWarning.value)
      && AgreeExcept(s, s', PresentFields(p) + {IsSendingField})
  {
  }

  /** Every action except a send or a successful payment overwrites fields
      with values that do not depend on the state, so applying it twice is
      the same as applying it once. */
  lemma OverwriteIdempotent<R(!new)>(env: Env<R>, s: State<R>, a: Action<R>)
    requires !a.IsSend() && !a.SendPaymentOrInviteSuccess?
    ensures Step(env, Step(env, s, a), a) == Step(env, s, a)
  {
  }

  // ---------------------------------------------------------------------------
  // The recent-recipient invariant over whole runs

  lemma InitialStateValid<R>(equivalent: (R, R) -> bool, defaults: FeatureFlags)
    ensures Valid(equivalent, InitialState<R>(defaults))
  {
  }

  lemma {:induction false} StepPreservesValid<R(!new)>(env: Env<R>, s: State<R>, a: Action<R>)
    requires Symmetric(env.equivalent)
    requires Valid(env.equivalent, s)
    requires a.Rehydrate? ==> ValidPayload(env.equivalent, a.payload)
    ensures Valid(env.equivalent, Step(env, s, a))
  {
    if a.IsSend() {
      SendKeepsPairwiseNonEquivalent(env, s, a);
    }
  }

  /** Starting from the initial state, whatever the store dispatches keeps the
      recipient list within eight pairwise non-equivalent entries, provided
      the equivalence is symmetric and restored snapshots are themselves valid. */
  lemma {:induction false} RunPreservesValid<R(!new)>(
    equivalent: (R, R) -> bool, hoursBetween: (int, int) -> real,
    defaults: FeatureFlags, ds: seq<Dispatch<R>>)
    requires Symmetric(equivalent)
    requires forall i :: 0 <= i < |ds| && ds[i].action.Rehydrate? ==> ValidPayload(equivalent, ds[i].action.payload)
    ensures Valid(equivalent, Run(equivalent, hoursBetween, InitialState(defaults), ds))
    decreases |ds|
  {
    if |ds| > 0 {
      var prefix := ds[..|ds| - 1];
      assert forall i :: 0 <= i < |prefix| ==> prefix[i] == ds[i];
      RunPreservesValid(equivalent, hoursBetween, defaults, prefix);
      var d := ds[|ds| - 1];
      StepPreservesValid(Env(equivalent, hoursBetween, d.now), Run(equivalent, hoursBetween, InitialState(defaults), prefix), d.action);
    }
  }
}
